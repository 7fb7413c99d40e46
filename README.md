# sphere2cube, modelled in Dafny

sphere2cube turns an equirectangular panorama into the six faces of a
cube and then into a pyramid of 2D tiles for a web viewer. The panorama is
usually a Photoshop document (PSD or PSB). This project models the core of
that pipeline and proves properties of the model:

- **PackBits decoding** (`packbits.dfy`, module `PackBits`). This is the
  run-length decoder that writes into a target buffer. It comes with the
  worker wrapper that checks the decoded length (`worker_packbits.dfy`,
  module `PackBitsWorker`).
- **The PSD/PSB reader** (`psd.dfy`, module `Psd`). It covers the header, the
  length-prefixed sections, the compression code, raw or RLE scanlines,
  and the planar pixel read.
- **The RGBA raster** (`img.dfy`, module `Img`). This is a flat byte buffer
  with background reads outside the image, writes that are ignored outside
  the image, fill, and the file-name tests.
- **The resamplers** (`scale.dfy`, module `Scale`). These are bilinear
  scaling, nearest neighbour, and the halving of a raster.
- **The renderers** (`renderer.dfy`, module `Renderer`). They map cube-face
  pixels to directions, sample the panorama with wrap-around and clipping,
  and blend four corners. There is one renderer for a single face and one
  for the cross-shaped preview.
- **The converter** (`converter.dfy`, module `Converter`). It computes the
  number of zoom levels, the tile grid of each level, the tile copy, the
  tile file names and the order of the tile jobs. It also computes the
  vertical offset that centres a panorama.

Shared modules:

- `bytes.dfy`: bytes, signed bytes, `Option`, `Result`, `Outcome`.
- `pixels.dfy`: RGBA pixels, and what a byte buffer stores of them.
- `decimal.dfy`: decimal numerals, as JavaScript template strings print
  non-negative integers.

Code that keeps state becomes a `class`:

| source | Dafny class | fields |
|---|---|---|
| `IMG` | `Img.IMG` | its buffer, as an `array<byte>` |
| `PSD` | `Psd.PSD` | its scanlines, as a `seq` |
| `FaceRenderer`, `PreviewRenderer` | classes of the same name | — |

Code that loops becomes methods with loop invariants. Each method is proved
against a specification function. Examples:

- `PackBits.Decode` specifies `PackBits.DecodePackbits`.
- `Scale.BilinearPixel` specifies `Scale.BilinearScale`.
- `Renderer.FacePixel` specifies `Renderer.Convert2`.
- `Converter.Plan` specifies `Converter.PlanFace`.

Floating-point values are modelled as exact reals. The projection from a
direction to panorama coordinates uses trigonometry (`atan2`, `hypot`), so
it is a parameter `project` of the renderers.

## Model

| member | source | states |
|---|---|---|
| Bytes.ToUint8 | src/img.js:96-99 | storing an integer in a byte buffer keeps it when it is a byte and otherwise keeps it modulo 256 |
| Bytes.Signed | src/psd.js:160 | the signed reading of a byte is negative exactly for bytes of 128 and above and agrees with it modulo 256 |
| Bytes.Unsigned | src/psd.js:160 | inverse of the signed reading: every signed byte is the signed reading of some byte |
| Bytes.SignedSeq | src/psd.js:160 | a buffer read as signed bytes, element by element, same length |
| Pixels.Stored | src/img.js:96-99 | what a byte buffer keeps of a pixel is a byte pixel, and a byte pixel is kept unchanged |
| Decimal.NatToString | src/converter.js:60 | a non-negative integer prints as a canonical numeral (digits only, no leading zero except for 0 itself) |
| Decimal.DigitsValueOfNatToString | src/converter.js:60 | reading the printed numeral gives the number back |
| Decimal.NatToStringOfDigitsValue | src/converter.js:60 | every canonical numeral is the printing of its value |
| Decimal.NatToStringInjective | src/converter.js:60 | two numbers print the same exactly when they are equal |
| Decimal.ParseNat | src/worker-packbits.js:7 | parsing succeeds exactly on canonical numerals, and the parsed number prints back as the input |
| Decimal.ParseNatOfNatToString | src/worker-packbits.js:7 | parsing a printed number gives the number |
| Decimal.SplitDigitsOf | src/converter.js:70 | a numeral followed by a non-digit splits exactly at the end of the numeral |
| PackBits.NextRun | src/packbits.js:8-27 | every control byte moves the source index forward |
| PackBits.DecodeRun | src/packbits.js:10-27 | a run produces as many bytes as its control byte announces |
| PackBits.RunContents | src/packbits.js:10-27 | -128 emits nothing and consumes one byte; -1..-127 repeats the next byte 1-n times; 0..127 copies the next n+1 bytes |
| PackBits.Decode | src/packbits.js:3-31 | definition: the concatenation of all runs; its properties are PackBits.DecodedLength, PackBits.SourceConsumed, PackBits.DecodeAppend and PackBits.WellFormedReadsSource |
| PackBits.DecodedLength | src/packbits.js:7-30 | the number of bytes decoded is the sum of the runs' lengths |
| PackBits.SourceConsumed | src/packbits.js:7-28 | the loop stops at or past the end of the source, exactly at the end iff no run is truncated |
| PackBits.WellFormedReadsSource | src/packbits.js:17-25 | every byte decoded from well-formed input is one of the source's bytes |
| PackBits.DecodeAppend | src/packbits.js:7-28 | decoding a well-formed block followed by more input is the first block's output followed by the rest's |
| PackBits.ShiftedDecode | src/packbits.js:7-28 | decoding depends only on the bytes from the current index on: a stream whose tail from d is s2 decodes from d + i as s2 does from i |
| PackBits.SameRunInput | src/packbits.js:14-27 | a run's output and length depend only on its control byte and the data bytes it reads |
| PackBits.Overlay | src/packbits.js:19 | writing the output into a typed array keeps its length, replaces the prefix and keeps the rest |
| PackBits.OverlayPush | src/packbits.js:19 | writing one more byte sets the next position, or does nothing beyond the array's end |
| PackBits.DecodeFromStep | src/packbits.js:7-28 | decoding from an index is that index's run followed by decoding from the next run |
| PackBits.WriteRepeat | src/packbits.js:14-20 | the repeat loop writes exactly the run's output after what was decoded so far |
| PackBits.CopyLiteral | src/packbits.js:21-27 | the literal loop writes exactly the run's output and moves the source index past the run |
| PackBits.DecodePackbits | src/packbits.js:3-31 | the returned count is the length of the full decoding, and the target holds that decoding over its old contents |
| PackBitsWorker.MessageNamesLengths | src/worker-packbits.js:7 | the error message can be parsed back into the two lengths it reports |
| PackBitsWorker.ToExec | src/worker-packbits.js:4-12 | succeeds with the same task iff the decoded length equals the target's length; otherwise the error carries both lengths |
| PackBitsWorker.OnMessage | src/worker-packbits.js:14-20 | exactly one reply, echoing the task, carrying the result iff the line length matched and the error otherwise |
| Psd.Read | src/psd.js:56 | a positioned read succeeds iff the whole range lies inside the file, and returns exactly those bytes |
| Psd.U16BE | src/psd.js:59 | a big-endian 16-bit field is below 2^16 |
| Psd.U32BE | src/psd.js:63 | a big-endian 32-bit field is below 2^32 |
| Psd.LayoutOf | src/psd.js:55-101 | the image data starts after the header, both length-prefixed blocks, the 4- or 8-byte layer field and the compression code, inside the file |
| Psd.LineSizes | src/psd.js:136-150 | the line-size table holds 16-bit entries for a PSD, 32-bit entries for a PSB, and nothing for any other version |
| Psd.ScanlinesConsecutive | src/psd.js:157-165 | each compressed scanline starts where the previous one ended |
| Psd.DecodeScanline | src/psd.js:159-161 | a scanline is the PackBits decoding of its bytes read as signed, stored as bytes |
| Psd.PlanarPixel | src/psd.js:32-43 | outside the image the background; inside, red, green and blue from rows y, y+h and y+2h, opaque; None exactly when one of those rows is missing (where the source throws a TypeError) or too short (where it returns a pixel with `undefined` channels) |
| Psd.PSD.GetPixel | src/psd.js:32-43 | definition: the loaded scanlines read through Psd.PlanarPixel, whose contract states the pixel |
| Psd.RawPixelLayout | src/psd.js:115-127 | after a raw load, a pixel's red byte is at data start + y·width + x, green one plane (width·height bytes) further and blue two planes further |
| Psd.ReadU16 | src/psd.js:99-101 | reads a 16-bit field iff it lies inside the file |
| Psd.ReadU32 | src/psd.js:71-73 | reads a 32-bit field iff it lies inside the file |
| Psd.ReadLayerLength | src/psd.js:85-94 | the layer field is read iff its 4 (PSD) or 8 (PSB) bytes lie inside the file: one 32-bit value for a PSD, high·2^32 + low for a PSB, the short-read error otherwise |
| Psd.ReadLayout | src/psd.js:55-101 | the walk to the image data succeeds iff every read fits, and then yields the closed-form layout |
| Psd.ReadLineSizes | src/psd.js:136-150 | the table read fails iff the table runs past the file, otherwise it yields the line-size table |
| Psd.ReadScanline | src/psd.js:157-159 | reads compressed scanline x iff its block lies inside the file, and yields that block's decoding |
| Psd.ReadScanlines | src/psd.js:156-166 | reads scanlines in order, each the decoding of its compressed bytes; stops at a missing size or a short read |
| Psd.PSD.constructor | src/psd.js:5-14 | no scanlines, zero sizes, transparent black background |
| Psd.PSD.SetBackgroundColor | src/psd.js:20-22 | sets the background and nothing else |
| Psd.PSD.Load | src/psd.js:45-113 | header fields set from the file; compression 0 loads raw lines, 1 loads RLE lines, others leave lines alone; a short file is an error |
| Psd.PSD.ReadRawData | src/psd.js:115-127 | height·channels lines of width bytes, back to back from the offset, or a short-read failure |
| Psd.PSD.ReadRleData | src/psd.js:129-167 | the line-size table, then each line decoded from consecutive compressed blocks, or the failure that stopped it |
| Img.PixelIndexInRange | src/img.js:88 | an in-range pixel's address lies inside the buffer |
| Img.PixelIndexInjective | src/img.js:95 | two pixels share an address iff they are the same pixel |
| Img.PixelAt | src/img.js:84-91 | background outside the image; inside, the four bytes at the pixel's address |
| Img.PutPixel | src/img.js:93-101 | outside the image nothing changes; inside, only the pixel's four bytes change |
| Img.ReadAfterWrite | src/img.js:84-101 | reading a pixel after a write gives the stored written pixel at that position and the old pixel elsewhere |
| Img.IMG.constructor | src/img.js:9-17 | an empty raster with a transparent black background |
| Img.IMG.Create | src/img.js:19-23 | a fresh zero-filled w×h buffer: every pixel transparent black |
| Img.IMG.SetBackgroundColor | src/img.js:80-82 | sets the background colour |
| Img.IMG.Source | src/img.js:123-125 | the pixel source the resamplers read is the raster's getPixel |
| Img.IMG.SetPixel | src/img.js:93-101 | buffer updated as PutPixel says; every pixel reads as before except the written one |
| Img.IMG.Fill | src/img.js:25-31 | every pixel of the image reads as the stored colour |
| Img.Lower | src/img.js:104 | lower-casing keeps the length and maps each character |
| Img.IsPng | src/img.js:108-111 | definition; its properties are Img.IsPngIgnoresCase and Img.PngAndJpgExclusive |
| Img.IsJpg | src/img.js:103-106 | definition, with `.jpg` tested twice as written; its properties are Img.JpegSuffixRejected and Img.IsJpegNameAccepts |
| Img.IsPngIgnoresCase | src/img.js:108-111 | a name is a PNG name iff it ends in `.png` in any mix of cases |
| Img.PngAndJpgExclusive | src/img.js:103-111 | no name is both a PNG and a JPEG name |
| Img.JpegSuffixRejected | src/img.js:103-106 | a `.jpeg` name is neither a JPEG nor a PNG name |
| Img.IsJpegNameAccepts | src/img.js:103-106 | the corrected test accepts every name the written one does plus `.jpeg`, and never a PNG name |
| Scale.Round | src/scale.js:34 | rounding to the nearest integer, halves up |
| Scale.Ceil | src/scale.js:47 | the least integer not below the value |
| Scale.SpanBounds | src/scale.js:45-51 | the source span's low and high corners lie inside the source, at most one apart, around the source position |
| Scale.SpanIdentity | src/scale.js:45-51 | at equal sizes a target pixel maps to the same source pixel |
| Scale.MixBetween | src/scale.js:33-38 | one channel's interpolation lies between its two inputs |
| Scale.InterpolateConstant | src/scale.js:27-39 | interpolating two equal pixels gives that pixel |
| Scale.InterpolateBetween | src/scale.js:16-22 | an interpolated row sample keeps each channel within bounds its corners respect |
| Scale.BilinearPixel | src/scale.js:12-57 | definition: the row interpolations at the floor and ceiling rows, interpolated between; its properties are Scale.BilinearSameSize, Scale.BilinearConstant and Scale.BilinearChannelBounds |
| Scale.BilinearSameSize | src/scale.js:4-58 | scaling to the same size copies the image |
| Scale.BilinearConstant | src/scale.js:4-58 | a constant image scales to the same constant |
| Scale.BilinearChannelBounds | src/scale.js:12-39 | every scaled channel lies within the source's range for that channel |
| Scale.BilinearScale | src/scale.js:41-57 | every target pixel holds the stored bilinear sample of the source |
| Scale.NearestPixel | src/scale.js:73-77 | definition: the source pixel at the floored scaled indices; its properties are Scale.NearestIndexInRange and Scale.NearestSameSize |
| Scale.NearestIndexInRange | src/scale.js:75-76 | the nearest source index lies inside the source |
| Scale.NearestSameSize | src/scale.js:73-79 | nearest neighbour to the same size copies the image |
| Scale.NearestNeighbour | src/scale.js:65-80 | every target pixel holds the stored nearest source pixel |
| Scale.RoundHalf | src/img.js:114-115 | Math.round(n/2) is (n+1) div 2 |
| Scale.NewScaledByFactor | src/img.js:113-130 | a fresh raster of half size, rounded up, whose pixels are the stored bilinear samples of the original |
| Renderer.FaceIndex | src/renderer.js:29-51 | the six faces are numbered 0 to 5, and the numbering is a left inverse of the face lookup |
| Renderer.FaceOfFaceIndex | src/renderer.js:29-51 | the face lookup is a left inverse of the numbering too: every number 0 to 5 is the number of the face it looks up |
| Renderer.FaceDirection | src/renderer.js:29-51 | each face fixes one coordinate at ±1, and points of the face square lie on the cube surface |
| Renderer.PreviewDirection | src/renderer.js:108-142 | the same for the preview cross: inside a face's cell the direction lies on the cube |
| Renderer.PreviewMatchesFace | src/renderer.js:108-142 | the preview direction at a cell-shifted point is the face direction of the unshifted point |
| Renderer.Clip | src/renderer.js:224-232 | min for a value below min, max for a value above max, the value itself otherwise; so for min ≤ max the result lies in [min, max] and equals the input iff the input already does |
| Renderer.JsRem | src/renderer.js:206-209 | the remainder has the dividend's sign, is smaller than the divisor, and completes truncating division |
| Renderer.Corner | src/renderer.js:206-209 | a sampled corner lies inside the panorama (u wraps around, v is clipped) |
| Renderer.LerpBetween | src/renderer.js:212-217 | linear interpolation stays between its inputs |
| Renderer.BlendBetween | src/renderer.js:212-217 | the four-corner blend stays within bounds respected by all four corners |
| Renderer.CalcPixel | src/renderer.js:187-222 | definition: the blend of the four corners around the projected point; its properties are Renderer.CalcPixelBetween and Renderer.CalcPixelReadsPanorama |
| Renderer.CalcPixelBetween | src/renderer.js:187-222 | each channel of a sampled pixel lies within that channel's range over the panorama |
| Renderer.CalcPixelReadsPanorama | src/renderer.js:187-222 | a sampled pixel depends only on panorama pixels inside the panorama |
| Renderer.FaceCoord | src/renderer.js:59-62 | an output pixel maps into [-1, 1) |
| Renderer.FacePixelOnFace | src/renderer.js:58-67 | every output pixel of a face is sampled along a direction on the cube's face |
| Renderer.Convert2 | src/renderer.js:53-81 | the face's square is filled with the stored samples of the panorama, the rest of the raster is unchanged |
| Renderer.FaceRenderer.constructor | src/renderer.js:6-12 | keeps the panorama, its width, the offsets and the projection |
| Renderer.FaceRenderer.Render | src/renderer.js:14-27 | a fresh square raster of the requested size holding the face's samples |
| Renderer.PreviewFace | src/renderer.js:151-176 | definition of the zone selection; its property is Renderer.PreviewFaceCells |
| Renderer.PreviewFaceCells | src/renderer.js:151-176 | a preview pixel belongs to a face iff it lies in that face's cell of the cross |
| Renderer.PreviewMatchesFaceRender | src/renderer.js:108-142 | a preview pixel equals the face render's pixel at the cell-relative position |
| Renderer.ColumnRows | src/renderer.js:154-176 | the rows the preview loop visits in a column are exactly the rows covered by a face |
| Renderer.Convert | src/renderer.js:145-184 | cross cells filled with the stored preview samples, every other pixel unchanged |
| Renderer.PreviewRenderer.constructor | src/renderer.js:86-93 | keeps the panorama, its width, the offsets and the projection |
| Renderer.PreviewRenderer.Render | src/renderer.js:95-106 | a fresh W×3W/4 raster: the cross holds the preview samples, the rest transparent black |
| Converter.FilePrefix | src/converter.js:12-19 | a face's file prefix is a letter, never a digit |
| Converter.PrefixFace | src/converter.js:12-19 | the prefix determines the face: the lookup is inverse to FilePrefix |
| Converter.Halve | src/converter.js:118-119 | Math.round(n·0.5) is (n+1) div 2, and it shrinks every side of 2 or more |
| Converter.GetMaxLevel | src/converter.js:114-122 | the number of halvings until both sides fit the tile; 0 iff the image already fits |
| Converter.MaxLevelUnique | src/converter.js:114-122 | that number of halvings is unique |
| Converter.MaxLevelExample | src/converter.js:114-122 | a 2048×2048 face with 512-pixel tiles has top level 2 |
| Converter.ZeroTileHasNoMaxLevel | src/converter.js:114-122 | with tile size 0 and a side of at least one pixel no level fits, so the loop never ends |
| Converter.CeilDiv | src/converter.js:63-64 | Math.ceil(n/tile) is the least tile count covering n |
| Converter.TileGrid | src/converter.js:63-64 | definition of the intended grid, columns from the width; its properties are Converter.TilesPartition and Converter.TileInsideImage |
| Converter.TileGridAsWritten | src/converter.js:63-64 | definition of the grid as the converter computes it; its properties are Converter.SwappedGridMissesPixels and Converter.SquareGridAgrees |
| Converter.TileInsideImage | src/converter.js:90-93 | every tile of the grid starts inside the image and is 1 to tileSize pixels wide, never past the edge |
| Converter.TileOfPosition | src/converter.js:90-93 | a position lies in tile k iff k is its position divided by the tile size |
| Converter.TilesPartition | src/converter.js:63-74 | with columns from the width and rows from the height, every pixel lies in exactly one tile of the grid |
| Converter.SwappedGridMissesPixels | src/converter.js:63-64 | with the grid as written, a 1024×512 level has a pixel in no tile and a tile with no pixels |
| Converter.SquareGridAgrees | src/converter.js:63-64 | on a square level the grid as written and the corrected grid coincide |
| Converter.RenderTile | src/converter.js:88-112 | a fresh tile sized by the clipped tile span, each pixel the source pixel at the tile offset |
| Converter.CopyPixels | src/converter.js:97-102 | every tile pixel is the stored source pixel at the offset position |
| Converter.TilePixelSource | src/converter.js:90-101 | every tile pixel comes from a pixel of the level inside that tile |
| Converter.TileFileName | src/converter.js:70 | definition of `<prefix><y>_<x>.png`; its properties are Converter.ParseTileFileNameOf and Converter.TileFileNameOfParse |
| Converter.TilePath | src/converter.js:60-70 | definition of `<level + 1>/<file name>`; its properties are Converter.ParseTilePathOfTilePath, Converter.TilePathOfParseTilePath and Converter.TilePathInjective |
| Converter.ParseTileFileNameOf | src/converter.js:70 | a tile file name can be parsed back into its face, column and row |
| Converter.TileFileNameOfParse | src/converter.js:70 | every parsable file name is the name of what it parses to |
| Converter.ParseTilePathOfTilePath | src/converter.js:60-70 | a tile path can be parsed back into level, face, column and row |
| Converter.TilePathOfParseTilePath | src/converter.js:60-70 | every parsable tile path is the path of what it parses to |
| Converter.TilePathInjective | src/converter.js:60-70 | two tiles share a path iff they are the same tile |
| Converter.LevelJobsMembers | src/converter.js:68-74 | the tile loops of a level visit exactly the tiles of its grid |
| Converter.LevelJobsDistinct | src/converter.js:68-74 | no tile of a level is visited twice |
| Converter.PlanFromMembers | src/converter.js:59-78 | the plan holds exactly the tiles of every level from the top down to 0 that lie in that level's grid, columns counted from the width and rows from the height (on square faces the grid the converter computes; see Converter.SquareGridAgrees) |
| Converter.PlanFromDistinct | src/converter.js:59-78 | no tile is visited twice across levels |
| Converter.PlanFromDescends | src/converter.js:59 | tiles are visited level by level, finest first |
| Converter.PlanFace | src/converter.js:56-78 | on a square face, the top level is the maximum level, and the loops, with their counts taken as the converter takes them, visit exactly the tiles of the plan in order |
| Converter.VisitLevel | src/converter.js:68-74 | the two tile loops of a level append exactly that level's tiles, row by row and left to right within a row, to the tiles visited before |
| Converter.PlanPathsDistinct | src/converter.js:59-74 | no two tile jobs of a face write the same path |
| Converter.YOffset | src/converter.js:32 | the offset r centres the image in a 2:1 panorama: r rows above, between r and r+2 rows below |

## Left out

- File and codec I/O is not modelled: `IMG.write`/`IMG.load`, the PNG and
  JPEG codecs, the random-access file, directory creation and writing
  `index.html`. The PSD reader instead reads from a byte sequence, and each
  read is checked against the file length.
- `Psd.PSD.Load`: in the source a failed read leaves the promise unsettled,
  and the model returns `Err(FileTooShort)` instead. The signature, depth
  and colour mode are only logged by the source and are not checked here
  either. Until a load, the size fields are 0 rather than `undefined`, so
  `Psd.PSD.GetPixel` at x, y ≥ 0 gives the background where the source,
  comparing against `undefined`, indexes the empty line list and throws a
  TypeError.
- Progress events (`EventEmitter`), the progress bar and console logging
  are not modelled; they do not affect any result.
- The worker thread's message passing is not modelled: concurrency is out
  of scope. `PackBitsWorker.OnMessage` models one message handled to
  completion.
- The PSD reader decodes scanlines with the `@fiahfy/packbits` library,
  which is not part of this model. `Psd.DecodeScanline` assumes that
  library decodes like `PackBits.Decode` on the bytes read as signed.
- `renderPano`'s wiring (the argument lists passed to the renderers, the
  Jimp image, `maxLevelToRender`, the viewer HTML) is not modelled.
  `Converter.PlanFace` models the face's level and tile loops, and
  `Converter.RenderTile` models one tile with an `Img.IMG` standing in for
  the Jimp image.
- `Converter.PlanFace`: requires a square face. Every face the converter
  tiles is square (`FaceRenderer.render` creates outImgSize × outImgSize
  and halving keeps it square), and on a square face the counts the
  converter computes equal the grid `Converter.Plan` uses. On a non-square
  level the source would visit a different set of tiles (see Findings).
- `Converter.GetMaxLevel`: requires a tile size of at least 1. With tile
  size 0 the source loop never ends for an image with a side of at least
  one pixel, because `Math.round(1·0.5)` is 1
  (`Converter.ZeroTileHasNoMaxLevel`).
- `PackBits.DecodePackbits`: the source is taken as signed bytes (an
  `Int8Array`), and the target as a typed array that stores each decoded
  value unchanged (an `Int8Array`). With an unsigned `Buffer` as the
  source, the `-128` and negative branches could never run. With a
  `Uint8Array` target, a repeated negative byte would be stored modulo 256,
  which `PackBits.Overlay` does not capture.
- `Converter.Halve`: Jimp's `scale(0.5)` is assumed to size the image as
  `Math.round(n·0.5)`. Jimp's own resampling is not modelled.
- `Renderer.CalcPixel`: the longitude/latitude projection (`atan2`,
  `hypot`, π) is a parameter `project`, and double-precision arithmetic is
  exact real arithmetic.
- `Renderer.CalcPixel`: the panorama width is required to be even and at
  least 2. Odd widths make `inX/2` fractional in the source.
- `Renderer.Convert`: the preview width is required to be a positive
  multiple of 4. Otherwise the source's face edge is fractional.
- `Img.PixelAt`: the `<<` in the address computation wraps at 32 bits in
  the source. The model uses unbounded integers, so buffers beyond 2^31
  bytes are not captured.
- `Psd.LayoutOf`: a PSB's 64-bit layer length is an exact product, not
  the double the source computes.
- `Img.Lower`: lower-casing covers ASCII letters only.
- `Scale.BilinearScale`, `Scale.NearestNeighbour`, `Renderer.Convert2`,
  `Renderer.Convert`, `Converter.CopyPixels`: the contracts state the final
  raster. They do not state the order or number of pixel writes. The
  target size is the destination raster's size, not a separate parameter.
- `Scale.NewScaledByFactor`: the factor is ignored, as in the source.
- The face names in `converter.js` are used only for logging and are not
  modelled. The file prefixes are modelled.

## Findings

| source | as written | input that shows it | evidently intended | confidence | as-written member | corrected member |
|---|---|---|---|---|---|---|
| src/converter.js:63-64 | the column count comes from the height and the row count from the width, while columns step along the width | a 1024×512 level with 512-pixel tiles gets 1 column and 2 rows: pixel (600, 0) is in no tile and the second row is empty | columns from the width, rows from the height | high for non-square levels; faces are square, so rendered output is unaffected; not executed | Converter.SwappedGridMissesPixels | Converter.TilesPartition |
| src/img.js:105 | the JPEG test compares against `.jpg` twice | `photo.jpeg` is neither a JPEG nor a PNG name, so it is neither written nor loaded | the second alternative is `.jpeg` | medium; not executed | Img.JpegSuffixRejected | Img.IsJpegNameAccepts |
