/** The Photoshop (PSD, version 1) and large-document (PSB, version 2)
    reader: it walks the file header and the length-prefixed sections that
    precede the image data, then reads the planar 8-bit image data either
    raw or PackBits-compressed, one scanline per channel row.

    The file is a byte sequence; a read of `length` bytes at `position`
    fails with `FileTooShort` unless the whole range lies inside the file. */
module Psd {
  import opened Bytes
  import opened Pixels
  import PackBits

  datatype LoadError =
    | FileTooShort     // a read returned fewer bytes than requested
    | MissingLineSize  // RLE data without a line-size table (version not 1 or 2)

  /** A positioned read of exactly `length` bytes. */
  function Read(file: seq<byte>, position: nat, length: nat): (r: Result<seq<byte>, LoadError>)
    ensures r.Ok? <==> position + length <= |file|
    ensures r.Ok? ==> |r.value| == length && forall k :: 0 <= k < length ==> r.value[k] == file[position + k]
    ensures r.Err? ==> r.error == FileTooShort
  {
    if position + length <= |file| then Ok(file[position..position + length]) else Err(FileTooShort)
  }

  /** Big-endian unsigned 16-bit integer at `i`. */
  function U16BE(s: seq<byte>, i: nat): (v: nat)
    requires i + 2 <= |s|
    ensures v < 0x1_0000
  {
    (s[i] as int) * 0x100 + s[i + 1]
  }

  /** Big-endian unsigned 32-bit integer at `i`. */
  function U32BE(s: seq<byte>, i: nat): (v: nat)
    requires i + 4 <= |s|
    ensures v < 0x1_0000_0000
  {
    U16BE(s, i) * 0x1_0000 + U16BE(s, i + 2)
  }

  // ---------------------------------------------------------------------
  // Where each section lies, in closed form (Adobe Photoshop File Formats
  // Specification: File Header, Color Mode Data, Image Resources, Layer and
  // Mask Information, Image Data).
  // ---------------------------------------------------------------------

  const HeaderLength: nat := 26

  function Version(file: seq<byte>): nat requires |file| >= HeaderLength { U16BE(file, 4) }
  function Channels(file: seq<byte>): nat requires |file| >= HeaderLength { U16BE(file, 12) }
  function Height(file: seq<byte>): nat requires |file| >= HeaderLength { U32BE(file, 14) }
  function Width(file: seq<byte>): nat requires |file| >= HeaderLength { U32BE(file, 18) }

  /** Length of the Color Mode Data block, stored right after the header. */
  function ColorModeLength(file: seq<byte>): nat
    requires |file| >= HeaderLength + 4
  {
    U32BE(file, HeaderLength)
  }

  /** Position of the Image Resources length field. */
  function ResourcesAt(file: seq<byte>): nat
    requires |file| >= HeaderLength + 4
  {
    HeaderLength + 4 + ColorModeLength(file)
  }

  function ImageResourceLength(file: seq<byte>): nat
    requires |file| >= HeaderLength + 4 && |file| >= ResourcesAt(file) + 4
  {
    U32BE(file, ResourcesAt(file))
  }

  /** Position of the Layer and Mask Information length field. */
  function LayerAt(file: seq<byte>): nat
    requires |file| >= HeaderLength + 4 && |file| >= ResourcesAt(file) + 4
  {
    ResourcesAt(file) + 4 + ImageResourceLength(file)
  }

  /** The layer-and-mask length field is 4 bytes in a PSD and 8 in anything else. */
  function LayerFieldSize(version: nat): nat {
    if version == 1 then 4 else 8
  }

  /** Position of the compression code: only the length FIELD of the layer
      block is skipped, never the block itself. */
  function CompressionAt(file: seq<byte>): nat
    requires |file| >= HeaderLength + 4 && |file| >= ResourcesAt(file) + 4
  {
    LayerAt(file) + LayerFieldSize(Version(file))
  }

  /** Every read up to and including the compression code succeeds. */
  predicate LayoutFits(file: seq<byte>) {
    && |file| >= HeaderLength + 4
    && |file| >= ResourcesAt(file) + 4
    && |file| >= CompressionAt(file) + 2
  }

  function LayerAndMaskLength(file: seq<byte>): nat
    requires LayoutFits(file)
  {
    var at := LayerAt(file);
    if Version(file) == 1 then U32BE(file, at)
    else U32BE(file, at) * 0x1_0000_0000 + U32BE(file, at + 4)
  }

  function Compression(file: seq<byte>): nat
    requires LayoutFits(file)
  {
    U16BE(file, CompressionAt(file))
  }

  /** Where the image data (after the compression code) begins. */
  function DataAt(file: seq<byte>): nat
    requires LayoutFits(file)
  {
    CompressionAt(file) + 2
  }

  /** The values the loader reads on its way to the image data. */
  datatype Layout = Layout(version: nat, colorModeLength: nat, imageResourceLength: nat,
                           layerAndMaskLength: nat, compression: nat, dataOffset: nat)

  function LayoutOf(file: seq<byte>): (l: Layout)
    requires LayoutFits(file)
    ensures l.dataOffset <= |file|
    ensures l.dataOffset == HeaderLength + 4 + l.colorModeLength + 4 + l.imageResourceLength
                            + LayerFieldSize(l.version) + 2
    ensures l.version == 1 ==> l.layerAndMaskLength < 0x1_0000_0000
  {
    Layout(Version(file), ColorModeLength(file), ImageResourceLength(file),
           LayerAndMaskLength(file), Compression(file), DataAt(file))
  }

  // ---------------------------------------------------------------------
  // Raw image data: `count` scanlines of `width` bytes, back to back.
  // ---------------------------------------------------------------------

  predicate RawLineFits(file: seq<byte>, start: nat, width: nat, k: nat) {
    start + k * width + width <= |file|
  }

  function RawLine(file: seq<byte>, start: nat, width: nat, k: nat): (line: seq<byte>)
    requires RawLineFits(file, start, width, k)
    ensures |line| == width
  {
    file[start + k * width .. start + k * width + width]
  }

  /** What reading raw image data leaves behind: a prefix of the scanlines,
      all of them exactly when the reading succeeds, and on failure the
      first scanline that does not fit. */
  ghost predicate RawLoaded(file: seq<byte>, start: nat, width: nat, count: nat,
                            lines: seq<seq<byte>>, o: Outcome<LoadError>)
  {
    && |lines| <= count
    && (forall k :: 0 <= k < |lines| ==> RawLineFits(file, start, width, k) && lines[k] == RawLine(file, start, width, k))
    && (o.Pass? <==> |lines| == count)
    && (o.Fail? ==> o.error == FileTooShort && !RawLineFits(file, start, width, |lines|))
    && (count > 0 ==> (o.Pass? <==> start + count * width <= |file|))
  }

  // ---------------------------------------------------------------------
  // RLE image data: a table of compressed scanline sizes, then the
  // compressed scanlines back to back.
  // ---------------------------------------------------------------------

  /** Size in bytes of the line-size table: u16 entries in a PSD, u32 in a
      PSB, and no table at all for any other version. */
  function TableBytes(version: nat, count: nat): nat {
    if version == 1 then 2 * count else if version == 2 then 4 * count else 0
  }

  function LineSizes(file: seq<byte>, version: nat, start: nat, count: nat): (sizes: seq<nat>)
    requires start + TableBytes(version, count) <= |file|
    ensures version == 1 || version == 2 ==> |sizes| == count
    ensures version != 1 && version != 2 ==> sizes == []
    ensures version == 1 ==> forall k :: 0 <= k < count ==> sizes[k] == U16BE(file, start + 2 * k) < 0x1_0000
    ensures version == 2 ==> forall k :: 0 <= k < count ==> sizes[k] == U32BE(file, start + 4 * k)
  {
    if version == 1 then seq(count, k requires 0 <= k < count => U16BE(file, start + 2 * k))
    else if version == 2 then seq(count, k requires 0 <= k < count => U32BE(file, start + 4 * k))
    else []
  }

  /** Sum of a sequence of sizes. */
  function Total(s: seq<nat>): nat {
    if s == [] then 0 else Total(s[..|s| - 1]) + s[|s| - 1]
  }

  /** Where compressed scanline `k` starts. */
  function ScanlineAt(dataStart: nat, sizes: seq<nat>, k: nat): nat
    requires k <= |sizes|
  {
    dataStart + Total(sizes[..k])
  }

  predicate ScanlineFits(file: seq<byte>, dataStart: nat, sizes: seq<nat>, k: nat) {
    k < |sizes| && ScanlineAt(dataStart, sizes, k) + sizes[k] <= |file|
  }

  /** A compressed scanline decoded as signed bytes and stored back as bytes. */
  function DecodeScanline(compressed: seq<byte>): (line: seq<byte>)
    ensures |line| == |PackBits.Decode(SignedSeq(compressed))|
    ensures forall k :: 0 <= k < |line| ==> line[k] == ToUint8(PackBits.Decode(SignedSeq(compressed))[k])
  {
    var d := PackBits.Decode(SignedSeq(compressed));
    seq(|d|, k requires 0 <= k < |d| => ToUint8(d[k]))
  }

  function RleLine(file: seq<byte>, dataStart: nat, sizes: seq<nat>, k: nat): seq<byte>
    requires ScanlineFits(file, dataStart, sizes, k)
  {
    var at := ScanlineAt(dataStart, sizes, k);
    DecodeScanline(file[at .. at + sizes[k]])
  }

  /** What reading RLE image data leaves behind. */
  ghost predicate RleLoaded(file: seq<byte>, version: nat, start: nat, count: nat,
                            lines: seq<seq<byte>>, o: Outcome<LoadError>)
  {
    && |lines| <= count
    && (o.Pass? <==> |lines| == count)
    && (start + TableBytes(version, count) > |file| ==> o == Fail(FileTooShort) && lines == [])
    && (start + TableBytes(version, count) <= |file| ==>
          var sizes := LineSizes(file, version, start, count);
          var dataStart := start + TableBytes(version, count);
          && (forall k :: 0 <= k < |lines| ==>
                ScanlineFits(file, dataStart, sizes, k) && lines[k] == RleLine(file, dataStart, sizes, k))
          && (o == Fail(MissingLineSize) <==> o.Fail? && |lines| == |sizes|)
          && (o == Fail(MissingLineSize) ==> version != 1 && version != 2)
          && (o == Fail(FileTooShort) ==> !ScanlineFits(file, dataStart, sizes, |lines|)))
  }

  /** Scanlines are read consecutively: each starts where the previous one ends. */
  lemma {:induction false} ScanlinesConsecutive(dataStart: nat, sizes: seq<nat>, k: nat)
    requires k < |sizes|
    ensures ScanlineAt(dataStart, sizes, k + 1) == ScanlineAt(dataStart, sizes, k) + sizes[k]
  {
    assert sizes[..k + 1][..k] == sizes[..k];
  }

  // ---------------------------------------------------------------------
  // Pixels
  // ---------------------------------------------------------------------

  /** The pixel at (x, y) of planar data: red from scanline y, green from
      scanline y + height, blue from scanline y + 2·height, opaque; the
      background outside the image. None stands for two behaviours of the
      source: a missing scanline, where indexing it throws a TypeError, and
      a short one, where the pixel comes back with `undefined` channels. */
  function PlanarPixel(lines: seq<seq<byte>>, width: nat, height: nat, background: Pixel,
                       x: int, y: int): (p: Option<Pixel>)
    ensures x < 0 || x >= width || y < 0 || y >= height ==> p == Some(background)
    ensures 0 <= x < width && 0 <= y < height && p.Some? ==>
              y + 2 * height < |lines| && x < |lines[y]| && x < |lines[y + height]| && x < |lines[y + 2 * height]|
              && p.value == Pixel(lines[y][x], lines[y + height][x], lines[y + 2 * height][x], 255)
    ensures 0 <= x < width && 0 <= y < height && p.None? ==>
              !(y + 2 * height < |lines| && x < |lines[y]| && x < |lines[y + height]| && x < |lines[y + 2 * height]|)
  {
    if x < 0 || x >= width || y < 0 || y >= height then Some(background)
    else if y + 2 * height < |lines| && x < |lines[y]| && x < |lines[y + height]| && x < |lines[y + 2 * height]|
    then Some(Pixel(lines[y][x], lines[y + height][x], lines[y + 2 * height][x], 255))
    else None
  }

  /** In a fully read raw image with at least three channels, every pixel
      is found at fixed file offsets: one byte per plane, planes
      `width·height` bytes apart. */
  lemma RawPixelLayout(file: seq<byte>, start: nat, width: nat, height: nat, channels: nat,
                       lines: seq<seq<byte>>, background: Pixel, x: nat, y: nat)
    requires channels >= 3 && x < width && y < height
    requires RawLoaded(file, start, width, height * channels, lines, Pass)
    ensures var plane := width * height;
            var at := start + y * width + x;
            at + 2 * plane < |file|
            && PlanarPixel(lines, width, height, background, x, y)
               == Some(Pixel(file[at], file[at + plane], file[at + 2 * plane], 255))
  {
    PlaneRows(width, height, channels, y);
    var count := height * channels;
    RawByte(file, start, width, count, lines, Pass, y, x);
    RawByte(file, start, width, count, lines, Pass, y + height, x);
    RawByte(file, start, width, count, lines, Pass, y + 2 * height, x);
  }

  /** Byte x of raw scanline k is file byte start + k·width + x. */
  lemma RawByte(file: seq<byte>, start: nat, width: nat, count: nat,
                lines: seq<seq<byte>>, o: Outcome<LoadError>, k: nat, x: nat)
    requires RawLoaded(file, start, width, count, lines, o) && k < |lines| && x < width
    ensures x < |lines[k]| && start + k * width + x < |file| && lines[k][x] == file[start + k * width + x]
  {
    assert RawLineFits(file, start, width, k) && lines[k] == RawLine(file, start, width, k);
  }

  /** The green and blue scanlines of row y lie one and two planes further on. */
  lemma PlaneRows(width: nat, height: nat, channels: nat, y: nat)
    requires channels >= 3 && y < height
    ensures (y + height) * width == y * width + width * height
    ensures (y + 2 * height) * width == y * width + 2 * (width * height)
    ensures y + 2 * height < height * channels
  {
    assert height * channels == height * 3 + height * (channels - 3);
  }

  /** The reader. `lines` holds one scanline per channel row, all channels
      of a row-plane after another. */
  class PSD {
    var lines: seq<seq<byte>>
    var width: nat
    var height: nat
    var channels: nat
    var background: Pixel

    constructor()
      ensures lines == [] && width == 0 && height == 0 && channels == 0
      ensures background == TransparentBlack
    {
      lines := [];
      width := 0;
      height := 0;
      channels := 0;
      background := TransparentBlack;
    }

    method SetBackgroundColor(color: Pixel)
      modifies this`background
      ensures background == color
    {
      background := color;
    }

    function LineCount(): nat
      reads this
    {
      height * channels
    }

    function GetPixel(x: int, y: int): Option<Pixel>
      reads this
    {
      PlanarPixel(lines, width, height, background, x, y)
    }

    /** Reads the header and section lengths, then the image data by its
        compression code (0 raw, 1 RLE, anything else: no image data). The
        header fields are taken over as soon as the header itself was read. */
    method Load(file: seq<byte>) returns (r: Result<Layout, LoadError>)
      modifies this
      ensures background == old(background)
      ensures |file| >= HeaderLength ==>
                channels == Channels(file) && height == Height(file) && width == Width(file)
      ensures |file| < HeaderLength ==>
                channels == old(channels) && height == old(height) && width == old(width)
      ensures !LayoutFits(file) ==> r == Err(FileTooShort) && lines == old(lines)
      ensures LayoutFits(file) && Compression(file) == 0 ==>
                RawLoaded(file, DataAt(file), width, LineCount(), lines, if r.Ok? then Pass else Fail(r.error))
      ensures LayoutFits(file) && Compression(file) == 1 ==>
                RleLoaded(file, Version(file), DataAt(file), LineCount(), lines, if r.Ok? then Pass else Fail(r.error))
      ensures LayoutFits(file) && Compression(file) != 0 && Compression(file) != 1 ==>
                r.Ok? && lines == old(lines)
      ensures r.Ok? ==> LayoutFits(file) && r.value == LayoutOf(file)
    {
      if |file| >= HeaderLength {
        channels := Channels(file);
        height := Height(file);
        width := Width(file);
      }
      var layout := ReadLayout(file);
      if layout.Err? { return Err(layout.error); }
      var o := Pass;
      if layout.value.compression == 0 {
        o := ReadRawData(file, layout.value.dataOffset);
      } else if layout.value.compression == 1 {
        o := ReadRleData(layout.value.version, file, layout.value.dataOffset);
      }
      r := if o.Pass? then Ok(layout.value) else Err(o.error);
    }

    method ReadRawData(file: seq<byte>, offset: nat) returns (o: Outcome<LoadError>)
      requires offset <= |file|
      modifies this`lines
      ensures RawLoaded(file, offset, width, LineCount(), lines, o)
    {
      lines := [];
      var lineCount := height * channels;
      var position := offset;
      var x := 0;
      while x < lineCount
        invariant 0 <= x <= lineCount && |lines| == x
        invariant position == offset + x * width <= |file|
        invariant forall k :: 0 <= k < x ==> RawLineFits(file, offset, width, k) && lines[k] == RawLine(file, offset, width, k)
        invariant x > 0 ==> offset + x * width <= |file|
      {
        var rd := Read(file, position, width);
        if rd.Err? {
          assert !RawLineFits(file, offset, width, x);
          assert (x + 1) * width <= lineCount * width;
          return Fail(rd.error);
        }
        assert rd.value == RawLine(file, offset, width, x);
        lines := lines + [rd.value];
        position := position + width;
        assert position == offset + (x + 1) * width;
        x := x + 1;
      }
      return Pass;
    }

    method ReadRleData(version: nat, file: seq<byte>, offset: nat) returns (o: Outcome<LoadError>)
      requires offset <= |file|
      modifies this`lines
      ensures RleLoaded(file, version, offset, LineCount(), lines, o)
    {
      lines := [];
      var lineCount := height * channels;
      var sizes := ReadLineSizes(version, file, offset, lineCount);
      if sizes.None? { return Fail(FileTooShort); }
      lines, o := ReadScanlines(file, offset + TableBytes(version, lineCount), sizes.value, lineCount);
    }
  }

  /** Reads compressed scanline x at `position` and decodes it. */
  method ReadScanline(file: seq<byte>, dataStart: nat, sizes: seq<nat>, x: nat, position: nat)
      returns (r: Result<seq<byte>, LoadError>)
    requires x < |sizes| && position == ScanlineAt(dataStart, sizes, x)
    ensures r.Ok? <==> ScanlineFits(file, dataStart, sizes, x)
    ensures r.Ok? ==> r.value == RleLine(file, dataStart, sizes, x)
    ensures r.Err? ==> r.error == FileTooShort
  {
    var rd := Read(file, position, sizes[x]);
    if rd.Err? { return Err(rd.error); }
    assert rd.value == file[position .. position + sizes[x]];
    return Ok(DecodeScanline(rd.value));
  }

  /** Appending the next decoded scanline keeps every line the decoding of
      its compressed block. */
  lemma RleLinesExtend(file: seq<byte>, dataStart: nat, sizes: seq<nat>, lines: seq<seq<byte>>, line: seq<byte>)
    requires forall k :: 0 <= k < |lines| ==>
               ScanlineFits(file, dataStart, sizes, k) && lines[k] == RleLine(file, dataStart, sizes, k)
    requires ScanlineFits(file, dataStart, sizes, |lines|) && line == RleLine(file, dataStart, sizes, |lines|)
    ensures forall k :: 0 <= k < |lines| + 1 ==>
              ScanlineFits(file, dataStart, sizes, k) && (lines + [line])[k] == RleLine(file, dataStart, sizes, k)
  {
  }

  /** Reads and decodes `count` compressed scanlines laid back to back from
      `dataStart`, the k-th `sizes[k]` bytes long. */
  method ReadScanlines(file: seq<byte>, dataStart: nat, sizes: seq<nat>, count: nat)
      returns (lines: seq<seq<byte>>, o: Outcome<LoadError>)
    requires dataStart <= |file|
    ensures |lines| <= count
    ensures o.Pass? <==> |lines| == count
    ensures forall k :: 0 <= k < |lines| ==>
              ScanlineFits(file, dataStart, sizes, k) && lines[k] == RleLine(file, dataStart, sizes, k)
    ensures o == Fail(MissingLineSize) <==> o.Fail? && |lines| == |sizes| < count
    ensures o == Fail(FileTooShort) ==> !ScanlineFits(file, dataStart, sizes, |lines|)
  {
    lines := [];
    var position := dataStart;
    var x := 0;
    while x < count
      invariant 0 <= x <= count && |lines| == x && x <= |sizes|
      invariant position == ScanlineAt(dataStart, sizes, x) <= |file|
      invariant forall k :: 0 <= k < x ==>
                  ScanlineFits(file, dataStart, sizes, k) && lines[k] == RleLine(file, dataStart, sizes, k)
    {
      if x >= |sizes| { return lines, Fail(MissingLineSize); }
      var rd := ReadScanline(file, dataStart, sizes, x, position);
      if rd.Err? { return lines, Fail(rd.error); }
      RleLinesExtend(file, dataStart, sizes, lines, rd.value);
      lines := lines + [rd.value];
      ScanlinesConsecutive(dataStart, sizes, x);
      position := position + sizes[x];
      x := x + 1;
    }
    return lines, Pass;
  }

  /** A big-endian 16-bit field read on its own. */
  function ReadU16(file: seq<byte>, position: nat): (r: Result<nat, LoadError>)
    ensures r.Ok? <==> position + 2 <= |file|
    ensures r.Ok? ==> r.value == U16BE(file, position)
    ensures r.Err? ==> r.error == FileTooShort
  {
    var rd := Read(file, position, 2);
    if rd.Err? then Err(rd.error) else Ok(U16BE(rd.value, 0))
  }

  /** A big-endian 32-bit field read on its own. */
  function ReadU32(file: seq<byte>, position: nat): (r: Result<nat, LoadError>)
    ensures r.Ok? <==> position + 4 <= |file|
    ensures r.Ok? ==> r.value == U32BE(file, position)
    ensures r.Err? ==> r.error == FileTooShort
  {
    var rd := Read(file, position, 4);
    if rd.Err? then Err(rd.error) else Ok(U32BE(rd.value, 0))
  }

  /** Walks the header and the length-prefixed sections up to the image
      data, one positioned read after another. */
  method ReadLayout(file: seq<byte>) returns (r: Result<Layout, LoadError>)
    ensures r.Ok? <==> LayoutFits(file)
    ensures r.Ok? ==> r.value == LayoutOf(file)
    ensures r.Err? ==> r.error == FileTooShort
  {
    var offset := 0;
    var header := Read(file, offset, HeaderLength);
    if header.Err? { return Err(header.error); }
    offset := offset + HeaderLength;
    var version := U16BE(header.value, 4);
    assert version == Version(file);

    var field := ReadU32(file, offset);
    if field.Err? { return Err(field.error); }
    offset := offset + 4;
    var colorModeLength := field.value;
    offset := offset + colorModeLength;
    assert offset == ResourcesAt(file);

    field := ReadU32(file, offset);
    if field.Err? { return Err(field.error); }
    offset := offset + 4;
    var imageResourceLength := field.value;
    offset := offset + imageResourceLength;

    assert offset == LayerAt(file);
    var layer := ReadLayerLength(file, version, offset);
    if layer.Err? { return Err(layer.error); }
    var layerAndMaskLength := layer.value;
    offset := offset + LayerFieldSize(version);
    assert offset == CompressionAt(file);

    field := ReadU16(file, offset);
    if field.Err? { return Err(field.error); }
    offset := offset + 2;
    var compression := field.value;
    return Ok(Layout(version, colorModeLength, imageResourceLength, layerAndMaskLength, compression, offset));
  }

  /** Reads the layer-and-mask length field at `offset`: one 32-bit field
      in a PSD, two in anything else. */
  method ReadLayerLength(file: seq<byte>, version: nat, offset: nat) returns (r: Result<nat, LoadError>)
    ensures r.Ok? <==> offset + LayerFieldSize(version) <= |file|
    ensures r.Ok? && version == 1 ==> r.value == U32BE(file, offset)
    ensures r.Ok? && version != 1 ==> r.value == U32BE(file, offset) * 0x1_0000_0000 + U32BE(file, offset + 4)
    ensures r.Err? ==> r.error == FileTooShort
  {
    if version == 1 {
      r := ReadU32(file, offset);
    } else {
      var rd := Read(file, offset, 8);
      if rd.Err? { return Err(rd.error); }
      assert U32BE(rd.value, 0) == U32BE(file, offset) && U32BE(rd.value, 4) == U32BE(file, offset + 4);
      r := Ok(U32BE(rd.value, 0) * 0x1_0000_0000 + U32BE(rd.value, 4));
    }
  }

  /** Reads the line-size table at `offset`: None when the file is too short
      for it. */
  method ReadLineSizes(version: nat, file: seq<byte>, offset: nat, lineCount: nat)
      returns (sizes: Option<seq<nat>>)
    requires offset <= |file|
    ensures sizes.None? <==> offset + TableBytes(version, lineCount) > |file|
    ensures sizes.Some? ==> sizes.value == LineSizes(file, version, offset, lineCount)
  {
    var table: seq<nat> := [];
    if version == 1 {
      var rd := Read(file, offset, 2 * lineCount);
      if rd.Err? { return None; }
      for i := 0 to lineCount
        invariant table == LineSizes(file, version, offset, lineCount)[..i]
      {
        assert U16BE(rd.value, 2 * i) == U16BE(file, offset + 2 * i);
        table := table + [U16BE(rd.value, 2 * i)];
      }
    } else if version == 2 {
      var rd := Read(file, offset, 4 * lineCount);
      if rd.Err? { return None; }
      for i := 0 to lineCount
        invariant table == LineSizes(file, version, offset, lineCount)[..i]
      {
        assert U32BE(rd.value, 4 * i) == U32BE(file, offset + 4 * i);
        table := table + [U32BE(rd.value, 4 * i)];
      }
    }
    return Some(table);
  }
}
