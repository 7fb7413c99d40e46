/** The flat RGBA raster every renderer writes into: a byte buffer of
    width·height·4 bytes, pixel (x, y) at byte ((y·width) + x)·4 in the
    order r, g, b, a. Reads outside the image give the background colour,
    writes outside the image are ignored. */
module Img {
  import opened Bytes
  import opened Pixels

  // ---------------------------------------------------------------------
  // The buffer layout, on values
  // ---------------------------------------------------------------------

  predicate InRange(width: nat, height: nat, x: int, y: int) {
    0 <= x < width && 0 <= y < height
  }

  /** Position of pixel (x, y) in row-major order. */
  function PixelIndex(width: nat, x: nat, y: nat): nat {
    y * width + x
  }

  lemma MulMonotone(a: nat, b: nat, c: nat)
    requires a <= b
    ensures a * c <= b * c
  {
    assert b * c == a * c + (b - a) * c;
  }

  /** Every in-range pixel has its own index, below width·height. */
  lemma PixelIndexInRange(width: nat, height: nat, x: nat, y: nat)
    requires InRange(width, height, x, y)
    ensures PixelIndex(width, x, y) < width * height
  {
    MulMonotone(y + 1, height, width);
    assert (y + 1) * width == y * width + width;
    assert height * width == width * height;
  }

  /** Within a row-major raster, an earlier row has the smaller indices. */
  lemma RowOrder(width: nat, x1: nat, y1: nat, x2: nat, y2: nat)
    requires x1 < width && y1 < y2
    ensures PixelIndex(width, x1, y1) < PixelIndex(width, x2, y2)
  {
    MulMonotone(y1 + 1, y2, width);
    assert (y1 + 1) * width == y1 * width + width;
  }

  /** Distinct pixels have distinct indices. */
  lemma PixelIndexInjective(width: nat, x1: nat, y1: nat, x2: nat, y2: nat)
    requires x1 < width && x2 < width
    ensures PixelIndex(width, x1, y1) == PixelIndex(width, x2, y2) <==> x1 == x2 && y1 == y2
  {
    if y1 < y2 {
      RowOrder(width, x1, y1, x2, y2);
    } else if y2 < y1 {
      RowOrder(width, x2, y2, x1, y1);
    }
  }

  /** The pixel at (x, y) of a width×height buffer. */
  function PixelAt(buf: seq<byte>, width: nat, height: nat, background: Pixel, x: int, y: int): (p: Pixel)
    requires |buf| == width * height * 4
    ensures !InRange(width, height, x, y) ==> p == background
    ensures InRange(width, height, x, y) ==>
              var a := PixelIndex(width, x, y) * 4;
              a + 3 < |buf| && p == Pixel(buf[a], buf[a + 1], buf[a + 2], buf[a + 3])
  {
    if InRange(width, height, x, y) then
      PixelIndexInRange(width, height, x, y);
      var a := PixelIndex(width, x, y) * 4;
      Pixel(buf[a], buf[a + 1], buf[a + 2], buf[a + 3])
    else background
  }

  /** The buffer after pixel (x, y) is written with p: its four bytes take
      the channels as a byte buffer stores them; outside the image nothing
      changes. */
  function PutPixel(buf: seq<byte>, width: nat, height: nat, x: int, y: int, p: Pixel): (r: seq<byte>)
    requires |buf| == width * height * 4
    ensures |r| == |buf|
    ensures !InRange(width, height, x, y) ==> r == buf
    ensures InRange(width, height, x, y) ==>
              var a := PixelIndex(width, x, y) * 4;
              forall k :: 0 <= k < |buf| && (k < a || a + 4 <= k) ==> r[k] == buf[k]
  {
    if InRange(width, height, x, y) then
      PixelIndexInRange(width, height, x, y);
      var a := PixelIndex(width, x, y) * 4;
      buf[a := ToUint8(p.r)][a + 1 := ToUint8(p.g)][a + 2 := ToUint8(p.b)][a + 3 := ToUint8(p.a)]
    else buf
  }

  /** A pixel read after a pixel write sees the written pixel as stored at
      that position, and the earlier content everywhere else. */
  lemma ReadAfterWrite(buf: seq<byte>, width: nat, height: nat, background: Pixel,
                       x: int, y: int, p: Pixel, x': int, y': int)
    requires |buf| == width * height * 4
    ensures PixelAt(PutPixel(buf, width, height, x, y, p), width, height, background, x', y')
            == if InRange(width, height, x, y) && x' == x && y' == y then Stored(p)
               else PixelAt(buf, width, height, background, x', y')
  {
    if InRange(width, height, x, y) && InRange(width, height, x', y') {
      PixelIndexInjective(width, x, y, x', y');
    }
  }

  // ---------------------------------------------------------------------
  // File name tests
  // ---------------------------------------------------------------------

  /** ASCII lower-casing of one character. */
  function LowerChar(c: char): (l: char)
    ensures 'A' <= c <= 'Z' ==> l as int == c as int + 32
    ensures !('A' <= c <= 'Z') ==> l == c
  {
    if 'A' <= c <= 'Z' then (c as int + 32) as char else c
  }

  function Lower(s: string): (l: string)
    ensures |l| == |s| && forall k :: 0 <= k < |s| ==> l[k] == LowerChar(s[k])
  {
    seq(|s|, k requires 0 <= k < |s| => LowerChar(s[k]))
  }

  predicate EndsWith(s: string, suffix: string) {
    |suffix| <= |s| && s[|s| - |suffix|..] == suffix
  }

  predicate IsPng(path: string) {
    EndsWith(Lower(path), ".png")
  }

  /** Both alternatives the source tests are `.jpg`. */
  predicate IsJpg(path: string) {
    EndsWith(Lower(path), ".jpg") || EndsWith(Lower(path), ".jpg")
  }

  /** The tests ignore case: a name ends in `.png` or `.PNG` or any mixture. */
  lemma IsPngIgnoresCase(path: string)
    ensures IsPng(path) <==>
              |path| >= 4 && path[|path| - 4] == '.'
              && LowerChar(path[|path| - 3]) == 'p' && LowerChar(path[|path| - 2]) == 'n'
              && LowerChar(path[|path| - 1]) == 'g'
  {
    if |path| >= 4 {
      var l := Lower(path);
      assert l[|l| - 4..] == [l[|l| - 4], l[|l| - 3], l[|l| - 2], l[|l| - 1]];
    }
  }

  /** A `.jpeg` name is neither a JPEG nor a PNG to the raster. */
  lemma JpegSuffixRejected(path: string)
    requires EndsWith(Lower(path), ".jpeg")
    ensures !IsJpg(path) && !IsPng(path)
  {
    var l := Lower(path);
    assert l[|l| - 4] == ".jpeg"[1] == 'j';
    assert l[|l| - 4..][0] == l[|l| - 4];
  }

  lemma PngAndJpgExclusive(path: string)
    ensures IsPng(path) ==> !IsJpg(path)
  {
    if IsPng(path) {
      var l := Lower(path);
      assert l[|l| - 3] == l[|l| - 4..][1] == 'p';
    }
  }

  /** The JPEG test with its second alternative as evidently meant: the
      `.jpeg` spelling. */
  predicate IsJpegName(path: string) {
    EndsWith(Lower(path), ".jpg") || EndsWith(Lower(path), ".jpeg")
  }

  /** The corrected test accepts everything the written one does, and the
      `.jpeg` spelling besides; it still never accepts a PNG name. */
  lemma IsJpegNameAccepts(path: string)
    ensures IsJpg(path) ==> IsJpegName(path)
    ensures EndsWith(Lower(path), ".jpeg") ==> IsJpegName(path) && !IsPng(path)
    ensures IsPng(path) ==> !IsJpegName(path)
  {
    var l := Lower(path);
    if EndsWith(l, ".jpeg") {
      assert l[|l| - 4] == l[|l| - 5..][1] == 'j';
      assert l[|l| - 4..][0] == l[|l| - 4];
    }
    if IsPng(path) {
      assert l[|l| - 3] == l[|l| - 4..][1] == 'p';
      if |l| >= 5 {
        assert l[|l| - 4] == l[|l| - 4..][0] == '.';
        assert l[|l| - 5..][1] == l[|l| - 4];
      }
    }
  }

  // ---------------------------------------------------------------------
  // The raster
  // ---------------------------------------------------------------------

  class IMG {
    var data: array<byte>
    var width: nat
    var height: nat
    var background: Pixel

    ghost predicate Valid()
      reads this
    {
      data.Length == width * height * 4
    }

    constructor()
      ensures Valid() && fresh(data)
      ensures width == 0 && height == 0 && background == TransparentBlack
    {
      data := new byte[0];
      width := 0;
      height := 0;
      background := TransparentBlack;
    }

    /** Allocates a zero-filled w×h raster. */
    method Create(w: nat, h: nat)
      modifies this
      ensures Valid() && fresh(data)
      ensures width == w && height == h && background == old(background)
      ensures forall k :: 0 <= k < data.Length ==> data[k] == 0
      ensures forall x, y :: InRange(w, h, x, y) ==> GetPixel(x, y) == TransparentBlack
    {
      width := w;
      height := h;
      data := new byte[h * w * 4](_ => 0);
      assert h * w == w * h;
    }

    method SetBackgroundColor(color: Pixel)
      modifies this`background
      ensures background == color
    {
      background := color;
    }

    function GetPixel(x: int, y: int): Pixel
      requires Valid()
      reads this, data
    {
      PixelAt(data[..], width, height, background, x, y)
    }

    /** The raster as a pixel source, the `(x, y) => img.getPixel(x, y)`
        callback the resamplers read through. */
    function Source(): (get: (int, int) -> Pixel)
      requires Valid()
      reads this, data
      ensures forall x, y :: get(x, y) == GetPixel(x, y)
    {
      var buf, w, h, bg := data[..], width, height, background;
      (x: int, y: int) => if |buf| == w * h * 4 then PixelAt(buf, w, h, bg, x, y) else bg
    }

    method SetPixel(x: int, y: int, p: Pixel)
      requires Valid()
      modifies data
      ensures data[..] == PutPixel(old(data[..]), width, height, x, y, p)
      ensures forall x', y' :: GetPixel(x', y') ==
                if InRange(width, height, x, y) && x' == x && y' == y then Stored(p) else old(GetPixel(x', y'))
    {
      if 0 <= x < width && 0 <= y < height {
        PixelIndexInRange(width, height, x, y);
        var adr := (y * width + x) * 4;
        data[adr] := ToUint8(p.r);
        data[adr + 1] := ToUint8(p.g);
        data[adr + 2] := ToUint8(p.b);
        data[adr + 3] := ToUint8(p.a);
      }
      assert data[..] == PutPixel(old(data[..]), width, height, x, y, p);
      forall x', y' ensures GetPixel(x', y') ==
                if InRange(width, height, x, y) && x' == x && y' == y then Stored(p) else old(GetPixel(x', y')) {
        ReadAfterWrite(old(data[..]), width, height, background, x, y, p, x', y');
      }
    }

    /** Writes `color` to every pixel, column by column. */
    method Fill(color: Pixel)
      requires Valid()
      modifies data
      ensures forall x, y :: InRange(width, height, x, y) ==> GetPixel(x, y) == Stored(color)
    {
      for i := 0 to width
        invariant forall x, y :: 0 <= x < i && 0 <= y < height ==> GetPixel(x, y) == Stored(color)
      {
        for j := 0 to height
          invariant forall x, y :: 0 <= x < i && 0 <= y < height ==> GetPixel(x, y) == Stored(color)
          invariant forall y :: 0 <= y < j ==> GetPixel(i, y) == Stored(color)
        {
          SetPixel(i, j, color);
        }
      }
    }
  }
}
