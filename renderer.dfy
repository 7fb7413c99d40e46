/** The cube-face renderers. A face renderer samples one face of the cube
    around the viewer from an equirectangular panorama; the preview renderer
    draws all six faces into one horizontal-cross image. Both map each
    output pixel to a direction on the cube, project that direction onto the
    panorama and blend the four panorama pixels around the projected point.

    The projection (atan2/hypot on doubles) is not modelled: it is the
    parameter `project`, taking a cube direction to panorama coordinates
    (u, v). Everything else is exact, on reals. */
module Renderer {
  import opened Bytes
  import opened Pixels
  import opened Img

  datatype Face = Back | Left | Front | Right | Top | Bottom

  /** The face numbering of the source: 0 back, 1 left, 2 front, 3 right,
      4 top, 5 bottom. */
  function FaceOf(k: int): Face
    requires 0 <= k < 6
  {
    if k == 0 then Back else if k == 1 then Left else if k == 2 then Front
    else if k == 3 then Right else if k == 4 then Top else Bottom
  }

  function FaceIndex(f: Face): (k: nat)
    ensures k < 6 && FaceOf(k) == f
  {
    match f
    case Back => 0
    case Left => 1
    case Front => 2
    case Right => 3
    case Top => 4
    case Bottom => 5
  }

  /** Looking a number up and numbering the face gives the number back. */
  lemma FaceOfFaceIndex(k: int)
    requires 0 <= k < 6
    ensures FaceIndex(FaceOf(k)) == k
  {
  }

  datatype Vec3 = Vec3(x: real, y: real, z: real)

  /** Coordinates in the panorama, in pixels. */
  datatype UV = UV(u: real, v: real)

  predicate OnCube(d: Vec3) {
    -1.0 <= d.x <= 1.0 && -1.0 <= d.y <= 1.0 && -1.0 <= d.z <= 1.0
  }

  /** The axis a face lies on, held at ±1. */
  predicate Pinned(face: Face, d: Vec3) {
    match face
    case Back => d.x == -1.0
    case Left => d.y == -1.0
    case Front => d.x == 1.0
    case Right => d.y == 1.0
    case Top => d.z == 1.0
    case Bottom => d.z == -1.0
  }

  // ---------------------------------------------------------------------
  // Directions
  // ---------------------------------------------------------------------

  /** `outImgToXYZ2`: the direction of face coordinates a, b in [-1, 1]. */
  function FaceDirection(a: real, b: real, face: Face): (d: Vec3)
    ensures Pinned(face, d)
    ensures -1.0 <= a <= 1.0 && -1.0 <= b <= 1.0 ==> OnCube(d)
  {
    match face
    case Back => Vec3(-1.0, -a, -b)
    case Left => Vec3(a, -1.0, -b)
    case Front => Vec3(1.0, a, -b)
    case Right => Vec3(-a, 1.0, -b)
    case Top => Vec3(b, a, 1.0)
    case Bottom => Vec3(-b, a, -1.0)
  }

  /** Where each face sits in the horizontal cross, in edge lengths:
      back, left, front, right along the middle row, top above the front
      face and bottom below it. */
  datatype Cell = Cell(col: nat, row: nat)

  function CrossCell(face: Face): Cell {
    match face
    case Back => Cell(0, 1)
    case Left => Cell(1, 1)
    case Front => Cell(2, 1)
    case Right => Cell(3, 1)
    case Top => Cell(2, 0)
    case Bottom => Cell(2, 2)
  }

  /** The preview coordinates a in [0, 8), b in [0, 6) that fall into a
      face's cell of the cross. */
  predicate InCell(face: Face, a: real, b: real) {
    var c := CrossCell(face);
    2.0 * c.col as real <= a <= 2.0 * c.col as real + 2.0 && 2.0 * c.row as real <= b <= 2.0 * c.row as real + 2.0
  }

  /** `outImgToXYZ`: the direction of preview coordinates a, b. */
  function PreviewDirection(a: real, b: real, face: Face): (d: Vec3)
    ensures Pinned(face, d)
    ensures InCell(face, a, b) ==> OnCube(d)
  {
    match face
    case Back => Vec3(-1.0, 1.0 - a, 3.0 - b)
    case Left => Vec3(a - 3.0, -1.0, 3.0 - b)
    case Front => Vec3(1.0, a - 5.0, 3.0 - b)
    case Right => Vec3(7.0 - a, 1.0, 3.0 - b)
    case Top => Vec3(b - 1.0, a - 5.0, 1.0)
    case Bottom => Vec3(5.0 - b, a - 5.0, -1.0)
  }

  /** The two tables agree: the preview coordinates of a face's cell,
      shifted to the cell's centre, give the face coordinates. */
  lemma PreviewMatchesFace(a: real, b: real, face: Face)
    ensures var c := CrossCell(face);
            PreviewDirection(a + (2 * c.col + 1) as real, b + (2 * c.row + 1) as real, face)
            == FaceDirection(a, b, face)
  {
    match face
    case Back =>
    case Left =>
    case Front =>
    case Right =>
    case Top =>
    case Bottom =>
  }

  // ---------------------------------------------------------------------
  // Sampling the panorama
  // ---------------------------------------------------------------------

  /** `clip`: min below the range, max above it, the value itself inside. */
  function Clip(v: int, min: int, max: int): (r: int)
    ensures v < min ==> r == min
    ensures min <= v && max < v ==> r == max
    ensures min <= v <= max ==> r == v
    ensures min <= max ==> min <= r <= max
    ensures min <= max ==> (r == v <==> min <= v <= max)
  {
    if v < min then min else if v > max then max else v
  }

  /** JavaScript's integer division, rounding toward zero. */
  function JsQuot(a: int, n: int): int
    requires n > 0
  {
    if a >= 0 then a / n else -((-a) / n)
  }

  /** JavaScript's `%`: the remainder takes the sign of the dividend, and
      dividend = divisor · truncated quotient + remainder. */
  function JsRem(a: int, n: int): (r: int)
    requires n > 0
    ensures a >= 0 ==> 0 <= r < n
    ensures a < 0 ==> -n < r <= 0
    ensures a == n * JsQuot(a, n) + r
  {
    if a >= 0 then a % n else -((-a) % n)
  }

  /** Lower edge of the fraction weights: x at t = 0, y at t = 1. */
  function Lerp(x: real, y: real, t: real): real {
    x * (1.0 - t) + y * t
  }

  /** One channel of `calcPixel`: the four corners weighted by the
      fractions mu (across) and nu (down), rounded down. */
  function Blend(a: int, b: int, c: int, d: int, mu: real, nu: real): int {
    (a as real * (1.0 - mu) * (1.0 - nu) + b as real * mu * (1.0 - nu)
     + c as real * (1.0 - mu) * nu + d as real * mu * nu).Floor
  }

  /** The corner of the panorama `calcPixel` reads for grid point (u, v):
      columns wrap around the panorama width, rows are clamped to the
      panorama height inX / 2. */
  function Corner(inX: nat, u: int, v: int): (p: (int, int))
    requires inX >= 2 && inX % 2 == 0
    ensures u >= 0 ==> 0 <= p.0 < inX
    ensures 0 <= p.1 < inX / 2
  {
    (JsRem(u, inX), Clip(v, 0, inX / 2 - 1))
  }

  /** `calcPixel` after the projection: bilinear blend of the four pixels
      around (u, v). */
  function CalcPixel(uv: UV, inX: nat, get: (int, int) -> Pixel): Pixel
    requires inX >= 2 && inX % 2 == 0
  {
    var u1, v1 := uv.u.Floor, uv.v.Floor;
    var mu, nu := uv.u - u1 as real, uv.v - v1 as real;
    var A := get(Corner(inX, u1, v1).0, Corner(inX, u1, v1).1);
    var B := get(Corner(inX, u1 + 1, v1).0, Corner(inX, u1 + 1, v1).1);
    var C := get(Corner(inX, u1, v1 + 1).0, Corner(inX, u1, v1 + 1).1);
    var D := get(Corner(inX, u1 + 1, v1 + 1).0, Corner(inX, u1 + 1, v1 + 1).1);
    Pixel(Blend(A.r, B.r, C.r, D.r, mu, nu), Blend(A.g, B.g, C.g, D.g, mu, nu),
          Blend(A.b, B.b, C.b, D.b, mu, nu), Blend(A.a, B.a, C.a, D.a, mu, nu))
  }

  lemma LerpBetween(x: real, y: real, t: real, lo: real, hi: real)
    requires 0.0 <= t <= 1.0 && lo <= x <= hi && lo <= y <= hi
    ensures lo <= Lerp(x, y, t) <= hi
  {
    NonNegativeProduct(x - lo, 1.0 - t);
    NonNegativeProduct(y - lo, t);
    NonNegativeProduct(hi - x, 1.0 - t);
    NonNegativeProduct(hi - y, t);
    assert Lerp(x, y, t) - lo == (x - lo) * (1.0 - t) + (y - lo) * t;
    assert hi - Lerp(x, y, t) == (hi - x) * (1.0 - t) + (hi - y) * t;
  }

  lemma NonNegativeProduct(p: real, q: real)
    requires 0.0 <= p && 0.0 <= q
    ensures 0.0 <= p * q
  {
  }

  /** The blended channel lies between the smallest and largest corner. */
  lemma BlendBetween(a: int, b: int, c: int, d: int, mu: real, nu: real, lo: int, hi: int)
    requires 0.0 <= mu <= 1.0 && 0.0 <= nu <= 1.0
    requires lo <= a <= hi && lo <= b <= hi && lo <= c <= hi && lo <= d <= hi
    ensures lo <= Blend(a, b, c, d, mu, nu) <= hi
  {
    var l, h := lo as real, hi as real;
    var top := Lerp(a as real, b as real, mu);
    var bottom := Lerp(c as real, d as real, mu);
    LerpBetween(a as real, b as real, mu, l, h);
    LerpBetween(c as real, d as real, mu, l, h);
    LerpBetween(top, bottom, nu, l, h);
    assert Lerp(top, bottom, nu) == a as real * (1.0 - mu) * (1.0 - nu) + b as real * mu * (1.0 - nu)
                                     + c as real * (1.0 - mu) * nu + d as real * mu * nu;
  }

  /** Every channel of a sampled pixel lies within the range that channel
      takes over the panorama [0, inX) × [0, inX / 2), as long as the
      projected u is not negative. */
  lemma CalcPixelBetween(uv: UV, inX: nat, get: (int, int) -> Pixel, ch: Channel, lo: int, hi: int)
    requires inX >= 2 && inX % 2 == 0 && uv.u >= 0.0
    requires forall x, y :: 0 <= x < inX && 0 <= y < inX / 2 ==> lo <= Chan(get(x, y), ch) <= hi
    ensures lo <= Chan(CalcPixel(uv, inX, get), ch) <= hi
  {
    var u1, v1 := uv.u.Floor, uv.v.Floor;
    var mu, nu := uv.u - u1 as real, uv.v - v1 as real;
    var A := get(Corner(inX, u1, v1).0, Corner(inX, u1, v1).1);
    var B := get(Corner(inX, u1 + 1, v1).0, Corner(inX, u1 + 1, v1).1);
    var C := get(Corner(inX, u1, v1 + 1).0, Corner(inX, u1, v1 + 1).1);
    var D := get(Corner(inX, u1 + 1, v1 + 1).0, Corner(inX, u1 + 1, v1 + 1).1);
    BlendBetween(Chan(A, ch), Chan(B, ch), Chan(C, ch), Chan(D, ch), mu, nu, lo, hi);
    assert Chan(CalcPixel(uv, inX, get), ch) == Blend(Chan(A, ch), Chan(B, ch), Chan(C, ch), Chan(D, ch), mu, nu);
  }

  /** `calcPixel` reads the panorama only inside [0, inX) × [0, inX / 2)
      when u is not negative: two pixel sources that agree there give the
      same pixel. */
  lemma CalcPixelReadsPanorama(uv: UV, inX: nat, get1: (int, int) -> Pixel, get2: (int, int) -> Pixel)
    requires inX >= 2 && inX % 2 == 0 && uv.u >= 0.0
    requires forall x, y :: 0 <= x < inX && 0 <= y < inX / 2 ==> get1(x, y) == get2(x, y)
    ensures CalcPixel(uv, inX, get1) == CalcPixel(uv, inX, get2)
  {
    var u1, v1 := uv.u.Floor, uv.v.Floor;
    assert Corner(inX, u1, v1).0 >= 0 && Corner(inX, u1 + 1, v1 + 1).0 >= 0;
  }

  // ---------------------------------------------------------------------
  // Face render
  // ---------------------------------------------------------------------

  /** Face coordinate of output column or row i: 2i / edgeOut - 1. */
  function FaceCoord(i: int, edgeOut: nat): (a: real)
    requires edgeOut > 0
    ensures 0 <= i < edgeOut ==> -1.0 <= a < 1.0
  {
    FaceCoordBounds(i, edgeOut);
    2.0 * i as real / edgeOut as real - 1.0
  }

  lemma FaceCoordBounds(i: int, edgeOut: nat)
    requires edgeOut > 0
    ensures 0 <= i < edgeOut ==> 0.0 <= 2.0 * i as real / edgeOut as real < 2.0
  {
    if 0 <= i < edgeOut {
      var r, x := edgeOut as real, 2.0 * i as real;
      var q := x / r;
      assert q * r == x;
      assert 0.0 <= x < 2.0 * r;
    }
  }

  /** The pixel `convert2` writes at column i, row j of a face image. */
  function FacePixel(inX: nat, edgeOut: nat, face: Face, project: Vec3 -> UV, get: (int, int) -> Pixel,
                     i: int, j: int): Pixel
    requires inX >= 2 && inX % 2 == 0 && edgeOut > 0
  {
    CalcPixel(project(FaceDirection(FaceCoord(i, edgeOut), FaceCoord(j, edgeOut), face)), inX, get)
  }

  /** Every pixel of a face image looks along a direction on that face of
      the cube. */
  lemma FacePixelOnFace(edgeOut: nat, face: Face, i: int, j: int)
    requires 0 <= i < edgeOut && 0 <= j < edgeOut
    ensures var d := FaceDirection(FaceCoord(i, edgeOut), FaceCoord(j, edgeOut), face);
            OnCube(d) && Pinned(face, d)
  {
  }

  /** `convert2`: column by column, every pixel (i, j) of the edgeOut ×
      edgeOut face that lies inside `dst` gets its face pixel. */
  method Convert2(inX: nat, edgeOut: nat, face: Face, project: Vec3 -> UV, get: (int, int) -> Pixel, dst: IMG)
    requires inX >= 2 && inX % 2 == 0
    requires dst.Valid()
    modifies dst.data
    ensures forall x, y :: InRange(dst.width, dst.height, x, y) ==>
              dst.GetPixel(x, y) == if x < edgeOut && y < edgeOut
                                    then Stored(FacePixel(inX, edgeOut, face, project, get, x, y))
                                    else old(dst.GetPixel(x, y))
  {
    for i := 0 to edgeOut
      invariant forall x, y :: InRange(dst.width, dst.height, x, y) ==>
                  dst.GetPixel(x, y) == if x < i && y < edgeOut
                                        then Stored(FacePixel(inX, edgeOut, face, project, get, x, y))
                                        else old(dst.GetPixel(x, y))
    {
      var a := FaceCoord(i, edgeOut);
      for j := 0 to edgeOut
        invariant forall x, y :: InRange(dst.width, dst.height, x, y) ==>
                    dst.GetPixel(x, y) == if (x < i && y < edgeOut) || (x == i && y < j)
                                          then Stored(FacePixel(inX, edgeOut, face, project, get, x, y))
                                          else old(dst.GetPixel(x, y))
      {
        var b := FaceCoord(j, edgeOut);
        var xyz := FaceDirection(a, b, face);
        var rgba := CalcPixel(project(xyz), inX, get);
        dst.SetPixel(i, j, rgba);
      }
    }
  }

  /** The panorama both renderers read: the source image moved by the
      offsets, so panorama pixel (x, y) is source pixel (x - xOffset,
      y - yOffset). */
  function Shifted(source: (int, int) -> Pixel, xOffset: int, yOffset: int): (int, int) -> Pixel {
    (x: int, y: int) => source(x - xOffset, y - yOffset)
  }

  /** Renders one cube face from a panorama `w` pixels wide, whose pixel
      (x, y) the source holds at (x - xOffset, y - yOffset). */
  class FaceRenderer {
    const source: (int, int) -> Pixel
    const w: nat
    const xOffset: int
    const yOffset: int
    const project: Vec3 -> UV

    constructor(source: (int, int) -> Pixel, w: nat, xOffset: int, yOffset: int, project: Vec3 -> UV)
      ensures this.source == source && this.w == w && this.xOffset == xOffset && this.yOffset == yOffset
      ensures this.project == project
    {
      this.source := source;
      this.w := w;
      this.xOffset := xOffset;
      this.yOffset := yOffset;
      this.project := project;
    }

    /** `render`: a fresh outImgSize × outImgSize image, cleared to
        transparent black, then every pixel sampled. */
    method Render(face: Face, outImgSize: nat) returns (img: IMG)
      requires w >= 2 && w % 2 == 0
      ensures fresh(img) && fresh(img.data) && img.Valid()
      ensures img.width == outImgSize && img.height == outImgSize
      ensures forall x, y :: InRange(outImgSize, outImgSize, x, y) ==>
                img.GetPixel(x, y) == Stored(FacePixel(w, outImgSize, face, project, Shifted(source, xOffset, yOffset), x, y))
    {
      img := new IMG();
      img.Create(outImgSize, outImgSize);
      img.Fill(TransparentBlack);
      Convert2(w, outImgSize, face, project, Shifted(source, xOffset, yOffset), img);
    }
  }

  // ---------------------------------------------------------------------
  // Preview render
  // ---------------------------------------------------------------------

  /** Which face the preview draws at column i, row j of an image whose
      faces are edgeOut wide: the column picks back, left, front or right;
      only the front column extends above (top) and below (bottom) the
      middle band. None outside the cross. */
  function PreviewFace(edgeOut: nat, i: int, j: int): Option<Face>
    requires edgeOut > 0
  {
    if !(0 <= i < 4 * edgeOut) then None
    else
      var col := i / edgeOut;
      if col == 2 then
        if 0 <= j < edgeOut then Some(Top)
        else if 2 * edgeOut <= j < 3 * edgeOut then Some(Bottom)
        else if edgeOut <= j < 2 * edgeOut then Some(Front)
        else None
      else if edgeOut <= j < 2 * edgeOut then Some(FaceOf(col))
      else None
  }

  /** The cross is made of the six faces' cells: a pixel shows a face
      exactly when it lies in that face's edgeOut × edgeOut cell. */
  lemma PreviewFaceCells(edgeOut: nat, i: int, j: int, face: Face)
    requires edgeOut > 0
    ensures var c := CrossCell(face);
            PreviewFace(edgeOut, i, j) == Some(face) <==>
              c.col * edgeOut <= i < (c.col + 1) * edgeOut && c.row * edgeOut <= j < (c.row + 1) * edgeOut
  {
    if 0 <= i < 4 * edgeOut {
      ColumnCases(edgeOut, i);
    }
    match face
    case Back =>
    case Left =>
    case Front =>
    case Right =>
    case Top =>
    case Bottom =>
  }

  /** Inside the preview, the column index selects one of the four columns
      by the range the pixel falls in. */
  lemma ColumnCases(edgeOut: nat, i: int)
    requires edgeOut > 0 && 0 <= i < 4 * edgeOut
    ensures var col := i / edgeOut;
            && (col == 0 <==> i < edgeOut)
            && (col == 1 <==> edgeOut <= i < 2 * edgeOut)
            && (col == 2 <==> 2 * edgeOut <= i < 3 * edgeOut)
            && (col == 3 <==> 3 * edgeOut <= i)
  {
    ColumnOf(edgeOut, i, 0);
    ColumnOf(edgeOut, i, 1);
    ColumnOf(edgeOut, i, 2);
    ColumnOf(edgeOut, i, 3);
  }

  /** Column col of the cross holds exactly the pixels whose column index
      has quotient col. */
  lemma ColumnOf(edgeOut: nat, i: int, col: nat)
    requires edgeOut > 0
    ensures 0 <= i ==> (i / edgeOut == col <==> col * edgeOut <= i < (col + 1) * edgeOut)
  {
    if 0 <= i {
      var q, r := i / edgeOut, i % edgeOut;
      assert i == q * edgeOut + r;
      if q < col {
        MulMonotone(q + 1, col, edgeOut);
      } else if q > col {
        MulMonotone(col + 1, q, edgeOut);
      }
    }
  }

  /** Preview coordinate of column or row i: 2i / edgeOut. */
  function PreviewCoord(i: int, edgeOut: nat): real
    requires edgeOut > 0
  {
    2.0 * i as real / edgeOut as real
  }

  /** The pixel `convert` writes at column i, row j of the preview. */
  function PreviewPixel(inX: nat, edgeOut: nat, project: Vec3 -> UV, get: (int, int) -> Pixel,
                        i: int, j: int): Pixel
    requires inX >= 2 && inX % 2 == 0 && edgeOut > 0
    requires PreviewFace(edgeOut, i, j).Some?
  {
    var face := PreviewFace(edgeOut, i, j).value;
    CalcPixel(project(PreviewDirection(PreviewCoord(i, edgeOut), PreviewCoord(j, edgeOut), face)), inX, get)
  }

  /** The preview shows each face exactly as the face render of the same
      edge length does: preview pixel (i, j) in a face's cell is face pixel
      (i, j) less the cell's corner. */
  lemma PreviewMatchesFaceRender(inX: nat, edgeOut: nat, project: Vec3 -> UV, get: (int, int) -> Pixel,
                                 i: int, j: int, face: Face)
    requires inX >= 2 && inX % 2 == 0 && edgeOut > 0
    requires PreviewFace(edgeOut, i, j) == Some(face)
    ensures var c := CrossCell(face);
            PreviewPixel(inX, edgeOut, project, get, i, j)
            == FacePixel(inX, edgeOut, face, project, get, i - c.col * edgeOut, j - c.row * edgeOut)
  {
    var c := CrossCell(face);
    ShiftedCoord(i, c.col, edgeOut);
    ShiftedCoord(j, c.row, edgeOut);
    PreviewMatchesFace(FaceCoord(i - c.col * edgeOut, edgeOut), FaceCoord(j - c.row * edgeOut, edgeOut), face);
  }

  /** Moving k cells to the left moves the preview coordinate by 2k. */
  lemma ShiftedCoord(i: int, k: nat, edgeOut: nat)
    requires edgeOut > 0
    ensures PreviewCoord(i, edgeOut) == FaceCoord(i - k * edgeOut, edgeOut) + (2 * k + 1) as real
  {
    var e := edgeOut as real;
    assert (i - k * edgeOut) as real == i as real - k as real * e;
    assert 2.0 * (i as real - k as real * e) / e == 2.0 * i as real / e - 2.0 * k as real;
  }

  /** `convert`: column by column, each column's rows of the cross get
      their preview pixel; pixels outside the cross are not written. */
  method Convert(inX: nat, outX: nat, project: Vec3 -> UV, get: (int, int) -> Pixel, dst: IMG)
    requires inX >= 2 && inX % 2 == 0 && outX % 4 == 0 && outX > 0
    requires dst.Valid()
    modifies dst.data
    ensures forall x, y :: InRange(dst.width, dst.height, x, y) ==>
              dst.GetPixel(x, y) == if PreviewFace(outX / 4, x, y).Some?
                                    then Stored(PreviewPixel(inX, outX / 4, project, get, x, y))
                                    else old(dst.GetPixel(x, y))
  {
    var edgeOut := outX / 4;
    for i := 0 to outX
      invariant forall x, y :: InRange(dst.width, dst.height, x, y) ==>
                  dst.GetPixel(x, y) == if x < i && PreviewFace(edgeOut, x, y).Some?
                                        then Stored(PreviewPixel(inX, edgeOut, project, get, x, y))
                                        else old(dst.GetPixel(x, y))
    {
      var a := PreviewCoord(i, edgeOut);
      var face := i / edgeOut;
      var j1, j2;
      if face == 2 {
        j1, j2 := 0, edgeOut * 3;
      } else {
        j1, j2 := edgeOut, edgeOut * 2;
      }
      ColumnRows(edgeOut, i, j1, j2);
      for j := j1 to j2
        invariant forall x, y :: InRange(dst.width, dst.height, x, y) ==>
                    dst.GetPixel(x, y) == if (x < i && PreviewFace(edgeOut, x, y).Some?) || (x == i && j1 <= y < j)
                                          then Stored(PreviewPixel(inX, edgeOut, project, get, x, y))
                                          else old(dst.GetPixel(x, y))
      {
        var b := PreviewCoord(j, edgeOut);
        var face2;
        if j < edgeOut {
          face2 := Top;
        } else if j >= 2 * edgeOut {
          face2 := Bottom;
        } else {
          face2 := FaceOf(face);
        }
        assert PreviewFace(edgeOut, i, j) == Some(face2);
        var xyz := PreviewDirection(a, b, face2);
        var rgba := CalcPixel(project(xyz), inX, get);
        dst.SetPixel(i, j, rgba);
      }
    }
  }

  /** The rows `convert` visits in column i are exactly the rows of the
      cross in that column. */
  lemma ColumnRows(edgeOut: nat, i: int, j1: int, j2: int)
    requires edgeOut > 0 && 0 <= i < 4 * edgeOut
    requires i / edgeOut == 2 ==> j1 == 0 && j2 == 3 * edgeOut
    requires i / edgeOut != 2 ==> j1 == edgeOut && j2 == 2 * edgeOut
    ensures 0 <= i / edgeOut < 4
    ensures forall y :: PreviewFace(edgeOut, i, y).Some? <==> j1 <= y < j2
  {
    ColumnOf(edgeOut, i, 4);
  }

  /** Renders the six faces as a horizontal cross, previewWidth wide and
      three quarters of that high, from a panorama `w` pixels wide. */
  class PreviewRenderer {
    const source: (int, int) -> Pixel
    const w: nat
    const xOffset: int
    const yOffset: int
    const project: Vec3 -> UV

    constructor(source: (int, int) -> Pixel, w: nat, xOffset: int, yOffset: int, project: Vec3 -> UV)
      ensures this.source == source && this.w == w && this.xOffset == xOffset && this.yOffset == yOffset
      ensures this.project == project
    {
      this.source := source;
      this.w := w;
      this.xOffset := xOffset;
      this.yOffset := yOffset;
      this.project := project;
    }

    /** `render`: a fresh zero-filled previewWidth × previewWidth·3/4 image
        with the cross drawn in; everything outside the cross stays
        transparent black. */
    method Render(previewWidth: nat) returns (img: IMG)
      requires w >= 2 && w % 2 == 0 && previewWidth % 4 == 0 && previewWidth > 0
      ensures fresh(img) && fresh(img.data) && img.Valid()
      ensures img.width == previewWidth && img.height == previewWidth * 3 / 4
      ensures forall x, y :: InRange(img.width, img.height, x, y) ==>
                img.GetPixel(x, y) == if PreviewFace(previewWidth / 4, x, y).Some?
                                      then Stored(PreviewPixel(w, previewWidth / 4, project, Shifted(source, xOffset, yOffset), x, y))
                                      else TransparentBlack
    {
      img := new IMG();
      img.Create(previewWidth, previewWidth * 3 / 4);
      Convert(w, previewWidth, project, Shifted(source, xOffset, yOffset), img);
    }
  }
}
