/** The two resamplers, bilinear and nearest-neighbour, and the raster's
    half-size copy built on the bilinear one. A resampler reads its source
    through a pixel function and writes every destination pixel into a
    raster. Source coordinates are exact rationals (`real`); `Round` is
    JavaScript's `Math.round`, which rounds halves up. */
module Scale {
  import opened Bytes
  import opened Pixels
  import opened Img

  /** `Math.round`. */
  function Round(v: real): (r: int)
    ensures r as real <= v + 0.5 < r as real + 1.0
  {
    (v + 0.5).Floor
  }

  /** `Math.ceil`. */
  function Ceil(v: real): (r: int)
    ensures v <= r as real < v + 1.0
  {
    -((-v).Floor)
  }

  function Min(a: int, b: int): int {
    if a <= b then a else b
  }

  // ---------------------------------------------------------------------
  // Bilinear
  // ---------------------------------------------------------------------

  /** One channel interpolated between `lo` at kMin and `hi` at kMax. */
  function Mix(k: real, kMin: int, lo: int, kMax: int, hi: int): int {
    Round((k - kMin as real) * hi as real + (kMax as real - k) * lo as real)
  }

  /** `interpolate`: the kMin sample unchanged when both ends coincide. */
  function Interpolate(k: real, kMin: int, vMin: Pixel, kMax: int, vMax: Pixel): Pixel {
    if kMin == kMax then vMin
    else Pixel(Mix(k, kMin, vMin.r, kMax, vMax.r), Mix(k, kMin, vMin.g, kMax, vMax.g),
               Mix(k, kMin, vMin.b, kMax, vMax.b), Mix(k, kMin, vMin.a, kMax, vMax.a))
  }

  /** The source coordinate of destination coordinate d along one axis, and
      the two source samples around it: floor, and ceiling clamped to the
      last sample. */
  datatype Span = Span(pos: real, lo: int, hi: int)

  function SourceSpan(d: int, nSrc: int, nDst: int): Span
    requires nDst > 0
  {
    var pos := (d * nSrc) as real / nDst as real;
    Span(pos, pos.Floor, Min(Ceil(pos), nSrc - 1))
  }

  /** `assign`: the pixel bilinear scaling writes, reading one source row
      only when the y span is a single sample. */
  function Assign(sx: Span, sy: Span, get: (int, int) -> Pixel): Pixel {
    var vMin := Interpolate(sx.pos, sx.lo, get(sx.lo, sy.lo), sx.hi, get(sx.hi, sy.lo));
    if sy.hi == sy.lo then vMin
    else
      var vMax := Interpolate(sx.pos, sx.lo, get(sx.lo, sy.hi), sx.hi, get(sx.hi, sy.hi));
      Interpolate(sy.pos, sy.lo, vMin, sy.hi, vMax)
  }

  /** The pixel bilinear scaling from wSrc×hSrc to wDst×hDst writes at (j, i). */
  function BilinearPixel(wSrc: nat, hSrc: nat, wDst: nat, hDst: nat, get: (int, int) -> Pixel,
                         j: int, i: int): Pixel
    requires 0 <= j < wDst && 0 <= i < hDst
  {
    Assign(SourceSpan(j, wSrc, wDst), SourceSpan(i, hSrc, hDst), get)
  }

  lemma DivBelow(a: real, b: real, c: real)
    requires c > 0.0 && a < b * c
    ensures a / c < b
  {
  }

  /** Both samples of a span lie in the source, at most one apart, around
      the source coordinate. */
  lemma SpanBounds(d: nat, nSrc: nat, nDst: nat)
    requires d < nDst && nSrc >= 1
    ensures var s := SourceSpan(d, nSrc, nDst);
            && 0 <= s.lo <= s.hi <= nSrc - 1 && s.hi - s.lo <= 1
            && s.lo as real <= s.pos
            && (s.hi == s.lo + 1 ==> s.pos <= s.hi as real)
  {
    var s := SourceSpan(d, nSrc, nDst);
    SourcePosition(d, nSrc, nDst);
    assert 0.0 <= s.pos < nSrc as real;
  }

  /** The source coordinate of a destination pixel lies in [0, nSrc). */
  lemma SourcePosition(d: nat, nSrc: nat, nDst: nat)
    requires d < nDst && nSrc >= 1
    ensures 0.0 <= (d * nSrc) as real / nDst as real < nSrc as real
  {
    MulMonotone(d + 1, nDst, nSrc);
    assert (d + 1) * nSrc == d * nSrc + nSrc;
    assert (d * nSrc) as real < nSrc as real * nDst as real;
    DivBelow((d * nSrc) as real, nSrc as real, nDst as real);
    DivNonNegative((d * nSrc) as real, nDst as real);
  }

  lemma DivNonNegative(a: real, c: real)
    requires a >= 0.0 && c > 0.0
    ensures a / c >= 0.0
  {
  }

  /** Equal sizes sample exactly one source pixel per destination pixel. */
  lemma SpanIdentity(d: nat, n: nat)
    requires d < n
    ensures SourceSpan(d, n, n) == Span(d as real, d, d)
  {
    var pos := (d * n) as real / n as real;
    assert (d * n) as real == d as real * n as real;
    assert pos == d as real;
    assert Ceil(pos) == d;
  }

  /** Rounding a value between two integers stays between them. */
  lemma RoundBetween(v: real, lo: int, hi: int)
    requires lo as real <= v <= hi as real
    ensures lo <= Round(v) <= hi
  {
  }

  /** A mix with adjacent ends is the low sample moved by the weight t
      towards the high one. */
  lemma MixForm(k: real, kMin: int, lo: int, hi: int)
    ensures Mix(k, kMin, lo, kMin + 1, hi) == Round(lo as real + (k - kMin as real) * (hi - lo) as real)
  {
    var t, l, h := k - kMin as real, lo as real, hi as real;
    assert (kMin + 1) as real - k == 1.0 - t;
    assert (1.0 - t) * l == l - t * l;
    assert t * (h - l) == t * h - t * l;
  }

  /** An interpolated channel lies between the two samples it mixes. */
  lemma MixBetween(k: real, kMin: int, lo: int, hi: int)
    requires kMin as real <= k <= kMin as real + 1.0
    ensures var m := Mix(k, kMin, lo, kMin + 1, hi);
            (lo <= hi ==> lo <= m <= hi) && (hi <= lo ==> hi <= m <= lo)
  {
    var t := k - kMin as real;
    MixForm(k, kMin, lo, hi);
    if lo <= hi {
      LerpRound(lo, hi, t);
    } else {
      LerpRound(hi, lo, 1.0 - t);
      LerpFlip(lo, hi, t);
    }
  }

  /** The rounded interpolation between lo <= hi stays in [lo, hi]. */
  lemma LerpRound(lo: int, hi: int, t: real)
    requires lo <= hi && 0.0 <= t <= 1.0
    ensures lo <= Round(lo as real + t * (hi - lo) as real) <= hi
  {
    LerpBetween(lo, hi, t);
    RoundBetween(lo as real + t * (hi - lo) as real, lo, hi);
  }

  /** Moving from lo towards hi >= lo by a weight in [0, 1] stays in [lo, hi]. */
  lemma LerpBetween(lo: int, hi: int, t: real)
    requires lo <= hi && 0.0 <= t <= 1.0
    ensures lo as real <= lo as real + t * (hi - lo) as real <= hi as real
  {
    var d := (hi - lo) as real;
    assert 0.0 <= t * d;
    assert t * d + (1.0 - t) * d == d;
    assert 0.0 <= (1.0 - t) * d;
  }

  /** Moving from lo towards hi by t is moving from hi towards lo by 1 - t. */
  lemma LerpFlip(lo: int, hi: int, t: real)
    ensures hi as real + (1.0 - t) * (lo - hi) as real == lo as real + t * (hi - lo) as real
  {
    var d := (hi - lo) as real;
    assert (lo - hi) as real == -d;
    assert (1.0 - t) * -d == t * d - d;
  }

  /** Interpolating between two equal pixels gives that pixel back. */
  lemma InterpolateConstant(k: real, kMin: int, kMax: int, c: Pixel)
    requires kMin == kMax || (kMax == kMin + 1 && kMin as real <= k <= kMax as real)
    ensures Interpolate(k, kMin, c, kMax, c) == c
  {
    if kMin != kMax {
      MixBetween(k, kMin, c.r, c.r);
      MixBetween(k, kMin, c.g, c.g);
      MixBetween(k, kMin, c.b, c.b);
      MixBetween(k, kMin, c.a, c.a);
    }
  }

  /** Scaling a raster to its own size copies it. */
  lemma BilinearSameSize(w: nat, h: nat, get: (int, int) -> Pixel, j: nat, i: nat)
    requires j < w && i < h
    ensures BilinearPixel(w, h, w, h, get, j, i) == get(j, i)
  {
    SpanIdentity(j, w);
    SpanIdentity(i, h);
  }

  /** A source of one colour scales to that colour everywhere. */
  lemma BilinearConstant(wSrc: nat, hSrc: nat, wDst: nat, hDst: nat, get: (int, int) -> Pixel,
                         c: Pixel, j: nat, i: nat)
    requires j < wDst && i < hDst && wSrc >= 1 && hSrc >= 1
    requires forall x, y :: 0 <= x < wSrc && 0 <= y < hSrc ==> get(x, y) == c
    ensures BilinearPixel(wSrc, hSrc, wDst, hDst, get, j, i) == c
  {
    var sx, sy := SourceSpan(j, wSrc, wDst), SourceSpan(i, hSrc, hDst);
    SpanBounds(j, wSrc, wDst);
    SpanBounds(i, hSrc, hDst);
    InterpolateConstant(sx.pos, sx.lo, sx.hi, c);
    InterpolateConstant(sy.pos, sy.lo, sy.hi, c);
  }

  /** Each channel of a bilinear pixel lies between the smallest and the
      largest value that channel takes in the source. */
  lemma BilinearChannelBounds(wSrc: nat, hSrc: nat, wDst: nat, hDst: nat, get: (int, int) -> Pixel,
                              c: Channel, lo: int, hi: int, j: nat, i: nat)
    requires j < wDst && i < hDst && wSrc >= 1 && hSrc >= 1
    requires forall x, y :: 0 <= x < wSrc && 0 <= y < hSrc ==> lo <= Chan(get(x, y), c) <= hi
    ensures lo <= Chan(BilinearPixel(wSrc, hSrc, wDst, hDst, get, j, i), c) <= hi
  {
    var sx, sy := SourceSpan(j, wSrc, wDst), SourceSpan(i, hSrc, hDst);
    SpanBounds(j, wSrc, wDst);
    SpanBounds(i, hSrc, hDst);
    var a := InterpolateBetween(sx, get, sy.lo, c, lo, hi);
    var b := InterpolateBetween(sx, get, sy.hi, c, lo, hi);
    if sy.hi != sy.lo {
      MixBetween(sy.pos, sy.lo, Chan(a, c), Chan(b, c));
      assert Chan(Interpolate(sy.pos, sy.lo, a, sy.hi, b), c) == Mix(sy.pos, sy.lo, Chan(a, c), sy.hi, Chan(b, c));
    }
  }

  /** The row-interpolated pixel keeps channel c within [lo, hi]. */
  lemma InterpolateBetween(sx: Span, get: (int, int) -> Pixel, y: int, c: Channel, lo: int, hi: int)
      returns (p: Pixel)
    requires sx.lo <= sx.hi <= sx.lo + 1 && sx.lo as real <= sx.pos
    requires sx.hi == sx.lo + 1 ==> sx.pos <= sx.hi as real
    requires lo <= Chan(get(sx.lo, y), c) <= hi && lo <= Chan(get(sx.hi, y), c) <= hi
    ensures p == Interpolate(sx.pos, sx.lo, get(sx.lo, y), sx.hi, get(sx.hi, y)) && lo <= Chan(p, c) <= hi
  {
    p := Interpolate(sx.pos, sx.lo, get(sx.lo, y), sx.hi, get(sx.hi, y));
    if sx.lo != sx.hi {
      MixBetween(sx.pos, sx.lo, Chan(get(sx.lo, y), c), Chan(get(sx.hi, y), c));
    }
  }

  /** `Bilinear.scale` into the raster `dst`, whose size is the target size:
      row by row, every destination pixel gets its bilinear pixel. */
  method BilinearScale(wSrc: nat, hSrc: nat, get: (int, int) -> Pixel, dst: IMG)
    requires dst.Valid()
    modifies dst.data
    ensures forall x, y :: InRange(dst.width, dst.height, x, y) ==>
              dst.GetPixel(x, y) == Stored(BilinearPixel(wSrc, hSrc, dst.width, dst.height, get, x, y))
  {
    var wDst, hDst := dst.width, dst.height;
    for i := 0 to hDst
      invariant forall x, y :: 0 <= x < wDst && 0 <= y < i ==>
                  dst.GetPixel(x, y) == Stored(BilinearPixel(wSrc, hSrc, wDst, hDst, get, x, y))
    {
      for j := 0 to wDst
        invariant forall x, y :: 0 <= x < wDst && 0 <= y < i ==>
                    dst.GetPixel(x, y) == Stored(BilinearPixel(wSrc, hSrc, wDst, hDst, get, x, y))
        invariant forall x :: 0 <= x < j ==>
                    dst.GetPixel(x, i) == Stored(BilinearPixel(wSrc, hSrc, wDst, hDst, get, x, i))
      {
        var sx := SourceSpan(j, wSrc, wDst);
        var sy := SourceSpan(i, hSrc, hDst);
        dst.SetPixel(j, i, Assign(sx, sy, get));
      }
    }
  }

  // ---------------------------------------------------------------------
  // Nearest neighbour
  // ---------------------------------------------------------------------

  /** The source pixel nearest-neighbour scaling copies to (j, i). */
  function NearestPixel(wSrc: nat, hSrc: nat, wDst: nat, hDst: nat, get: (int, int) -> Pixel,
                        j: int, i: int): Pixel
    requires 0 <= j < wDst && 0 <= i < hDst
  {
    get((j * wSrc) / wDst, (i * hSrc) / hDst)
  }

  /** The sampled source index is inside the source. */
  lemma NearestIndexInRange(d: nat, nSrc: nat, nDst: nat)
    requires d < nDst && nSrc >= 1
    ensures 0 <= (d * nSrc) / nDst < nSrc
  {
    MulMonotone(d + 1, nDst, nSrc);
    assert (d + 1) * nSrc == d * nSrc + nSrc;
    assert d * nSrc < nSrc * nDst;
  }

  lemma MultipleAtLeast(d: int, w: nat)
    ensures d >= 1 ==> d * w >= w
    ensures d <= -1 ==> d * w + w <= 0
  {
    if d >= 1 {
      MulMonotone(1, d, w);
    } else if d <= -1 {
      MulMonotone(1, -d, w);
      assert (-d) * w == -(d * w);
    }
  }

  /** Integer division has a unique quotient. */
  lemma DivUnique(a: int, w: int, q: int, r: int)
    requires w > 0 && 0 <= r < w && a == q * w + r
    ensures a / w == q
  {
    var q', r' := a / w, a % w;
    assert (q - q') * w == r' - r;
    MultipleAtLeast(q - q', w);
  }

  lemma NearestSameSize(w: nat, h: nat, get: (int, int) -> Pixel, j: nat, i: nat)
    requires j < w && i < h
    ensures NearestPixel(w, h, w, h, get, j, i) == get(j, i)
  {
    DivUnique(j * w, w, j, 0);
    DivUnique(i * h, h, i, 0);
  }

  /** `nearestNeighbour` into the raster `dst`, whose size is the target size. */
  method NearestNeighbour(wSrc: nat, hSrc: nat, get: (int, int) -> Pixel, dst: IMG)
    requires dst.Valid()
    modifies dst.data
    ensures forall x, y :: InRange(dst.width, dst.height, x, y) ==>
              dst.GetPixel(x, y) == Stored(NearestPixel(wSrc, hSrc, dst.width, dst.height, get, x, y))
  {
    var wDst, hDst := dst.width, dst.height;
    for i := 0 to hDst
      invariant forall x, y :: 0 <= x < wDst && 0 <= y < i ==>
                  dst.GetPixel(x, y) == Stored(NearestPixel(wSrc, hSrc, wDst, hDst, get, x, y))
    {
      for j := 0 to wDst
        invariant forall x, y :: 0 <= x < wDst && 0 <= y < i ==>
                    dst.GetPixel(x, y) == Stored(NearestPixel(wSrc, hSrc, wDst, hDst, get, x, y))
        invariant forall x :: 0 <= x < j ==>
                    dst.GetPixel(x, i) == Stored(NearestPixel(wSrc, hSrc, wDst, hDst, get, x, i))
      {
        var iSrc := (i * hSrc) / hDst;
        var jSrc := (j * wSrc) / wDst;
        dst.SetPixel(j, i, get(jSrc, iSrc));
      }
    }
  }

  // ---------------------------------------------------------------------
  // The half-size copy
  // ---------------------------------------------------------------------

  /** `Math.round(n / 2)` is n halved with the half rounded up. */
  lemma RoundHalf(n: nat)
    ensures Round(n as real / 2.0) == (n + 1) / 2
  {
    var q := n / 2;
    if n % 2 == 0 {
      assert n as real == 2.0 * q as real;
      assert n as real / 2.0 + 0.5 == q as real + 0.5;
    } else {
      assert n as real == 2.0 * q as real + 1.0;
      assert n as real / 2.0 + 0.5 == (q + 1) as real;
    }
  }

  /** `newScaledByFactor`: whatever the factor, a fresh raster of half the
      size (rounded up) holding the bilinear scaling of `img`. */
  method NewScaledByFactor(img: IMG, factor: real) returns (scaled: IMG)
    requires img.Valid()
    ensures fresh(scaled) && fresh(scaled.data) && scaled.Valid()
    ensures scaled.width == (img.width + 1) / 2 && scaled.height == (img.height + 1) / 2
    ensures forall x, y :: InRange(scaled.width, scaled.height, x, y) ==>
              scaled.GetPixel(x, y) ==
                Stored(BilinearPixel(img.width, img.height, scaled.width, scaled.height, img.Source(), x, y))
  {
    RoundHalf(img.width);
    RoundHalf(img.height);
    var tX := Round(img.width as real / 2.0);
    var tY := Round(img.height as real / 2.0);
    scaled := new IMG();
    scaled.Create(tX, tY);
    BilinearScale(img.width, img.height, img.Source(), scaled);
  }
}
