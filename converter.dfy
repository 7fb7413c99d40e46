/** The tile pyramid the converter writes for each cube face: how many
    zoom levels a face needs, which tiles each level is cut into, how big
    each tile is and which face pixels it holds, and the path each tile is
    written to (`<level + 1>/<face prefix><y>_<x>.png`). Image files, the
    directory tree and the image codec are not modelled; sizes and pixels
    are. */
module Converter {
  import opened Bytes
  import opened Pixels
  import opened Img
  import opened Decimal
  import opened Scale
  import opened Renderer

  // ---------------------------------------------------------------------
  // Face prefixes
  // ---------------------------------------------------------------------

  /** The file prefix of each face: b, l, f, r, u (top), d (bottom). */
  function FilePrefix(face: Face): (c: char)
    ensures !IsDigit(c)
  {
    match face
    case Back => 'b'
    case Left => 'l'
    case Front => 'f'
    case Right => 'r'
    case Top => 'u'
    case Bottom => 'd'
  }

  /** The face a prefix stands for, if any. */
  function PrefixFace(c: char): (r: Option<Face>)
    ensures r.Some? ==> FilePrefix(r.value) == c
    ensures forall face :: FilePrefix(face) == c ==> r == Some(face)
  {
    if c == 'b' then Some(Back) else if c == 'l' then Some(Left) else if c == 'f' then Some(Front)
    else if c == 'r' then Some(Right) else if c == 'u' then Some(Top) else if c == 'd' then Some(Bottom)
    else None
  }

  // ---------------------------------------------------------------------
  // Zoom levels
  // ---------------------------------------------------------------------

  /** `Math.round(n * 0.5)`: one halving of an image side. */
  function Halve(n: nat): (h: nat)
    ensures h == (n + 1) / 2
    ensures h <= n && (n >= 2 ==> h < n)
  {
    RoundHalf(n);
    assert n as real * 0.5 == n as real / 2.0;
    Round(n as real * 0.5)
  }

  /** A side halved k times. */
  function HalvedTimes(n: nat, k: nat): nat {
    if k == 0 then n else Halve(HalvedTimes(n, k - 1))
  }

  predicate Fits(width: nat, height: nat, tile: nat) {
    width <= tile && height <= tile
  }

  /** `level` is the number of halvings after which a width × height image
      first fits into one tile. */
  predicate IsMaxLevel(width: nat, height: nat, tile: nat, level: nat) {
    Fits(HalvedTimes(width, level), HalvedTimes(height, level), tile)
    && forall k :: 0 <= k < level ==> !Fits(HalvedTimes(width, k), HalvedTimes(height, k), tile)
  }

  /** `getMaxLevel`: halves both sides until the image fits into one tile
      and counts the halvings. */
  method GetMaxLevel(imgX: nat, imgY: nat, tile: nat) returns (level: nat)
    requires tile >= 1
    ensures IsMaxLevel(imgX, imgY, tile, level)
    ensures level == 0 <==> Fits(imgX, imgY, tile)
  {
    level := 0;
    var x, y := imgX, imgY;
    while x > tile || y > tile
      invariant x == HalvedTimes(imgX, level) && y == HalvedTimes(imgY, level)
      invariant forall k :: 0 <= k < level ==> !Fits(HalvedTimes(imgX, k), HalvedTimes(imgY, k), tile)
      decreases x + y
    {
      assert !Fits(HalvedTimes(imgX, level), HalvedTimes(imgY, level), tile);
      level := level + 1;
      x := Halve(x);
      y := Halve(y);
    }
  }

  /** There is only one such level. */
  lemma MaxLevelUnique(width: nat, height: nat, tile: nat, l1: nat, l2: nat)
    requires IsMaxLevel(width, height, tile, l1) && IsMaxLevel(width, height, tile, l2)
    ensures l1 == l2
  {
  }

  /** Halving never takes a side below one pixel. */
  lemma {:induction false} HalvedPositive(n: nat, k: nat)
    requires n >= 1
    ensures HalvedTimes(n, k) >= 1
  {
    if k > 0 {
      HalvedPositive(n, k - 1);
    }
  }

  /** With tiles of size 0, an image with a side of at least one pixel
      has no level that fits, so the `getMaxLevel` loop never ends: a side
      of 1 halves to `Math.round(0.5)`, which is 1 again. */
  lemma ZeroTileHasNoMaxLevel(width: nat, height: nat, level: nat)
    requires width >= 1 || height >= 1
    ensures !Fits(HalvedTimes(width, level), HalvedTimes(height, level), 0)
    ensures !IsMaxLevel(width, height, 0, level)
  {
    if width >= 1 {
      HalvedPositive(width, level);
    } else {
      HalvedPositive(height, level);
    }
  }

  /** A 2048 × 2048 face cut into 512-pixel tiles has levels 2, 1 and 0. */
  lemma MaxLevelExample(level: nat)
    requires IsMaxLevel(2048, 2048, 512, level)
    ensures level == 2
  {
    assert HalvedTimes(2048, 1) == 1024;
    assert HalvedTimes(2048, 2) == 512;
    assert IsMaxLevel(2048, 2048, 512, 2);
    MaxLevelUnique(2048, 2048, 512, level, 2);
  }

  // ---------------------------------------------------------------------
  // The tile grid
  // ---------------------------------------------------------------------

  /** `Math.ceil(n / tile)`: the number of tiles along a side. */
  function CeilDiv(n: nat, tile: nat): (c: nat)
    requires tile >= 1
    ensures n <= c * tile
    ensures c > 0 ==> (c - 1) * tile < n
  {
    CeilBounds(n, tile);
    Ceil(n as real / tile as real)
  }

  lemma CeilBounds(n: nat, tile: nat)
    requires tile >= 1
    ensures var c := Ceil(n as real / tile as real);
            c >= 0 && n <= c * tile && (c > 0 ==> (c - 1) * tile < n)
  {
    var q := n as real / tile as real;
    var c := Ceil(q);
    var t := tile as real;
    assert q * t == n as real;
    var above, below := c as real - q, q - (c as real - 1.0);
    NonNegativeProduct(above, t);
    PositiveProduct(below, t);
    var hi, lo := c as real * t, (c as real - 1.0) * t;
    assert hi - n as real == above * t;
    assert n as real - lo == below * t;
    assert (c * tile) as real == hi;
    assert ((c - 1) * tile) as real == lo;
  }

  lemma PositiveProduct(p: real, q: real)
    requires 0.0 < p && 0.0 < q
    ensures 0.0 < p * q
  {
  }

  /** `renderTile`'s tile side: a full tile, or what is left of the image
      side past the tile's offset. */
  function TileSpan(n: nat, tile: nat, k: nat): int {
    Min(tile, n - k * tile)
  }

  /** Pixel (px, py) of a width × height image lies in tile (x, y). */
  predicate InTile(width: nat, height: nat, tile: nat, x: nat, y: nat, px: int, py: int) {
    x * tile <= px < x * tile + TileSpan(width, tile, x) && y * tile <= py < y * tile + TileSpan(height, tile, y)
  }

  /** The grid of tiles a level is cut into, columns by rows. */
  function TileGrid(width: nat, height: nat, tile: nat): (g: (nat, nat))
    requires tile >= 1
  {
    (CeilDiv(width, tile), CeilDiv(height, tile))
  }

  /** The grid as the converter computes it: the column count is taken
      from the height and the row count from the width. */
  function TileGridAsWritten(width: nat, height: nat, tile: nat): (g: (nat, nat))
    requires tile >= 1
  {
    (CeilDiv(height, tile), CeilDiv(width, tile))
  }

  /** Every tile of the grid starts inside the image, so no tile is empty
      and none reaches past the image. */
  lemma TileInsideImage(n: nat, tile: nat, k: nat)
    requires tile >= 1 && k < CeilDiv(n, tile)
    ensures k * tile < n
    ensures 0 < TileSpan(n, tile, k) <= tile && k * tile + TileSpan(n, tile, k) <= n
  {
    MulMonotone(k, CeilDiv(n, tile) - 1, tile);
  }

  /** Along one side, the tile holding position p is p / tile, and it is
      the only one. */
  lemma TileOfPosition(n: nat, tile: nat, p: int, k: nat)
    requires tile >= 1 && 0 <= p < n
    ensures p / tile < CeilDiv(n, tile)
    ensures k * tile <= p < k * tile + TileSpan(n, tile, k) <==> k == p / tile
  {
    var q, r := p / tile, p % tile;
    assert p == q * tile + r;
    var c := CeilDiv(n, tile);
    if c <= q {
      MulMonotone(c, q, tile);
    }
    var kt := k * tile;
    assert TileSpan(n, tile, k) == Min(tile, n - kt);
    if kt <= p < kt + TileSpan(n, tile, k) {
      DivUnique(p, tile, k, p - kt);
    }
  }

  /** The tiles of the grid partition the image: every pixel lies in
      exactly one tile, and that tile is in the grid. */
  lemma TilesPartition(width: nat, height: nat, tile: nat, px: int, py: int)
    requires tile >= 1 && InRange(width, height, px, py)
    ensures var g := TileGrid(width, height, tile);
            px / tile < g.0 && py / tile < g.1
    ensures forall x: nat, y: nat :: InTile(width, height, tile, x, y, px, py) <==> x == px / tile && y == py / tile
  {
    TileOfPosition(width, tile, px, 0);
    TileOfPosition(height, tile, py, 0);
    forall x: nat, y: nat
      ensures InTile(width, height, tile, x, y, px, py) <==> x == px / tile && y == py / tile
    {
      TileOfPosition(width, tile, px, x);
      TileOfPosition(height, tile, py, y);
    }
  }

  /** With the axes swapped, a 1024 × 512 level cut into 512-pixel tiles
      gets one column and two rows: pixel (600, 0) lies in none of its
      tiles, and the second row of tiles is empty. */
  lemma SwappedGridMissesPixels()
    ensures TileGridAsWritten(1024, 512, 512) == (1, 2)
    ensures InRange(1024, 512, 600, 0)
    ensures forall x: nat, y: nat :: x < 1 && y < 2 ==> !InTile(1024, 512, 512, x, y, 600, 0)
    ensures TileSpan(512, 512, 1) == 0
  {
    assert CeilDiv(512, 512) == 1;
    assert CeilDiv(1024, 512) == 2;
  }

  /** On a square level, which is all the converter ever cuts, the swap
      makes no difference. */
  lemma SquareGridAgrees(n: nat, tile: nat)
    requires tile >= 1
    ensures TileGridAsWritten(n, n, tile) == TileGrid(n, n, tile)
  {
  }

  // ---------------------------------------------------------------------
  // Tiles
  // ---------------------------------------------------------------------

  /** `renderTile`'s pixel copy: a fresh image of the tile's size, each
      pixel taken from the same place of the level image. */
  method RenderTile(source: IMG, x: nat, y: nat, tile: nat) returns (img: IMG)
    requires source.Valid() && x * tile <= source.width && y * tile <= source.height
    ensures fresh(img) && fresh(img.data) && img.Valid()
    ensures img.width == TileSpan(source.width, tile, x) && img.height == TileSpan(source.height, tile, y)
    ensures forall px, py :: InRange(img.width, img.height, px, py) ==>
              img.GetPixel(px, py) == source.GetPixel(x * tile + px, y * tile + py)
  {
    var offX, offY := x * tile, y * tile;
    var imgX: nat := Min(tile, source.width - offX);
    var imgY: nat := Min(tile, source.height - offY);
    var get := source.Source();
    StoredWindow(source, get, offX, offY, imgX, imgY);
    img := new IMG();
    img.Create(imgX, imgY);
    CopyPixels(get, offX, offY, img);
    assert source.data[..] == old(source.data[..]);
  }

  /** Pixels read from inside a raster are already bytes: storing them
      again changes nothing. */
  lemma StoredWindow(source: IMG, get: (int, int) -> Pixel, offX: nat, offY: nat, w: nat, h: nat)
    requires source.Valid() && offX + w <= source.width && offY + h <= source.height
    requires forall x, y :: get(x, y) == source.GetPixel(x, y)
    ensures forall px, py :: InRange(w, h, px, py) ==>
              Stored(get(offX + px, offY + py)) == get(offX + px, offY + py)
  {
    forall px, py | InRange(w, h, px, py)
      ensures Stored(get(offX + px, offY + py)) == get(offX + px, offY + py)
    {
      assert InRange(source.width, source.height, offX + px, offY + py);
      assert IsBytePixel(source.GetPixel(offX + px, offY + py));
    }
  }

  /** The copy loops of `renderTile`: row by row, pixel (x, y) of `dst`
      takes pixel (offX + x, offY + y) of the source. */
  method CopyPixels(get: (int, int) -> Pixel, offX: int, offY: int, dst: IMG)
    requires dst.Valid()
    modifies dst.data
    ensures forall px, py :: InRange(dst.width, dst.height, px, py) ==>
              dst.GetPixel(px, py) == Stored(get(offX + px, offY + py))
  {
    for j := 0 to dst.height
      invariant forall px, py :: 0 <= px < dst.width && 0 <= py < j ==>
                  dst.GetPixel(px, py) == Stored(get(offX + px, offY + py))
    {
      for i := 0 to dst.width
        invariant forall px, py :: 0 <= px < dst.width && 0 <= py < j ==>
                    dst.GetPixel(px, py) == Stored(get(offX + px, offY + py))
        invariant forall px :: 0 <= px < i ==> dst.GetPixel(px, j) == Stored(get(offX + px, offY + j))
      {
        var col := get(offX + i, offY + j);
        dst.SetPixel(i, j, col);
      }
    }
  }

  /** Tile (x, y) of a level, and the tile pixel (px, py), hold face pixel
      (x·tile + px, y·tile + py): together the tiles of the grid give back
      every pixel of the level exactly once. */
  lemma TilePixelSource(width: nat, height: nat, tile: nat, x: nat, y: nat, px: int, py: int)
    requires tile >= 1 && x < TileGrid(width, height, tile).0 && y < TileGrid(width, height, tile).1
    requires 0 <= px < TileSpan(width, tile, x) && 0 <= py < TileSpan(height, tile, y)
    ensures InRange(width, height, x * tile + px, y * tile + py)
    ensures InTile(width, height, tile, x, y, x * tile + px, y * tile + py)
  {
    TileSideSource(width, tile, x, px);
    TileSideSource(height, tile, y, py);
  }

  /** Along one side: offset p within tile k is image position k·tile + p. */
  lemma TileSideSource(n: nat, tile: nat, k: nat, p: int)
    requires tile >= 1 && k < CeilDiv(n, tile) && 0 <= p < TileSpan(n, tile, k)
    ensures 0 <= k * tile + p < n
    ensures k * tile <= k * tile + p < k * tile + TileSpan(n, tile, k)
  {
    TileInsideImage(n, tile, k);
  }

  // ---------------------------------------------------------------------
  // Tile paths
  // ---------------------------------------------------------------------

  datatype TileName = TileName(face: Face, level: nat, x: nat, y: nat)

  /** The end of a tile's file name, which carries its column. */
  function ColumnPart(x: nat): string {
    "_" + NatToString(x) + ".png"
  }

  /** A tile's file name within its level directory: face prefix, row,
      then column. */
  function TileFileName(face: Face, x: nat, y: nat): string {
    [FilePrefix(face)] + NatToString(y) + ColumnPart(x)
  }

  /** The path of a tile below the target folder. Directories count
      levels from 1. */
  function TilePath(n: TileName): string {
    NatToString(n.level + 1) + "/" + TileFileName(n.face, n.x, n.y)
  }

  /** Reads the `_<x>.png` end of a file name back as x. */
  function ParseColumnPart(s: string): Option<nat> {
    if s == [] || s[0] != '_' then None
    else
      var t := SplitDigits(s[1..]);
      if t.1 != ".png" then None else ParseNat(t.0)
  }

  /** Reads a file name back as face, x and y. */
  function ParseTileFileName(s: string): Option<(Face, nat, nat)> {
    if s == [] || PrefixFace(s[0]).None? then None
    else
      var t := SplitDigits(s[1..]);
      var y := ParseNat(t.0);
      var x := ParseColumnPart(t.1);
      if y.None? || x.None? then None
      else Some((PrefixFace(s[0]).value, x.value, y.value))
  }

  /** Reads a tile path back. */
  function ParseTilePath(s: string): Option<TileName> {
    var t := SplitDigits(s);
    var dir := ParseNat(t.0);
    if dir.None? || dir.value == 0 || t.1 == [] || t.1[0] != '/' then None
    else
      var file := ParseTileFileName(t.1[1..]);
      if file.None? then None
      else Some(TileName(file.value.0, dir.value - 1, file.value.1, file.value.2))
  }

  /** A printed number followed by a non-digit splits off and reads back. */
  lemma SplitNumeral(n: nat, rest: string)
    requires rest == [] || !IsDigit(rest[0])
    ensures SplitDigits(NatToString(n) + rest) == (NatToString(n), rest)
    ensures ParseNat(NatToString(n)) == Some(n)
  {
    SplitDigitsOf(NatToString(n), rest);
    ParseNatOfNatToString(n);
  }

  lemma ParseColumnPartOf(x: nat)
    ensures ParseColumnPart(ColumnPart(x)) == Some(x)
  {
    var s := ColumnPart(x);
    assert s[0] == '_' && s[1..] == NatToString(x) + ".png";
    SplitNumeral(x, ".png");
  }

  lemma ParseTileFileNameOf(face: Face, x: nat, y: nat)
    ensures ParseTileFileName(TileFileName(face, x, y)) == Some((face, x, y))
  {
    var ys := NatToString(y);
    var tail := ColumnPart(x);
    var s := TileFileName(face, x, y);
    assert s == [FilePrefix(face)] + (ys + tail);
    assert s[1..] == ys + tail;
    SplitNumeral(y, tail);
    ParseColumnPartOf(x);
  }

  lemma ColumnPartOfParse(s: string)
    requires ParseColumnPart(s).Some?
    ensures s == ColumnPart(ParseColumnPart(s).value)
  {
    var t := SplitDigits(s[1..]);
    var x := ParseColumnPart(s).value;
    assert ParseNat(t.0) == Some(x) && t.1 == ".png";
    assert NatToString(x) == t.0;
    assert s == "_" + (t.0 + t.1);
  }

  lemma TileFileNameOfParse(s: string)
    requires ParseTileFileName(s).Some?
    ensures var r := ParseTileFileName(s).value;
            TileFileName(r.0, r.1, r.2) == s
  {
    var t := SplitDigits(s[1..]);
    var r := ParseTileFileName(s).value;
    ColumnPartOfParse(t.1);
    assert ColumnPart(r.1) == t.1;
    assert NatToString(r.2) == t.0;
    assert FilePrefix(r.0) == s[0];
    PrefixJoin(s, t.0, t.1);
  }

  lemma PrefixJoin(s: string, a: string, b: string)
    requires s != [] && a + b == s[1..]
    ensures [s[0]] + a + b == s
  {
    assert s == [s[0]] + s[1..];
  }

  /** Every tile path reads back as the tile it names. */
  lemma ParseTilePathOfTilePath(n: TileName)
    ensures ParseTilePath(TilePath(n)) == Some(n)
  {
    var d := NatToString(n.level + 1);
    var file := TileFileName(n.face, n.x, n.y);
    var rest := "/" + file;
    assert TilePath(n) == d + rest;
    SplitDigitsOf(d, rest);
    ParseNatOfNatToString(n.level + 1);
    assert rest[1..] == file;
    ParseTileFileNameOf(n.face, n.x, n.y);
  }

  /** A path that reads back is the path of the tile it names. */
  lemma TilePathOfParseTilePath(s: string)
    requires ParseTilePath(s).Some?
    ensures TilePath(ParseTilePath(s).value) == s
  {
    var t := SplitDigits(s);
    var n := ParseTilePath(s).value;
    var file := t.1[1..];
    TileFileNameOfParse(file);
    assert TileFileName(n.face, n.x, n.y) == file;
    assert NatToString(n.level + 1) == t.0;
    SlashJoin(t.0, t.1, s);
  }

  lemma SlashJoin(dir: string, rest: string, s: string)
    requires dir + rest == s && rest != [] && rest[0] == '/'
    ensures dir + "/" + rest[1..] == s
  {
    assert rest == "/" + rest[1..];
  }

  /** Different tiles never share a path, across levels and faces. */
  lemma TilePathInjective(n: TileName, m: TileName)
    ensures TilePath(n) == TilePath(m) <==> n == m
  {
    ParseTilePathOfTilePath(n);
    ParseTilePathOfTilePath(m);
  }

  // ---------------------------------------------------------------------
  // The tile loops
  // ---------------------------------------------------------------------

  predicate Distinct<T(==)>(s: seq<T>) {
    forall i, j :: 0 <= i < j < |s| ==> s[i] != s[j]
  }

  lemma DistinctConcat<T>(a: seq<T>, b: seq<T>)
    requires Distinct(a) && Distinct(b)
    requires forall i :: 0 <= i < |a| ==> a[i] !in b
    ensures Distinct(a + b)
  {
    forall i, j | 0 <= i < j < |a + b|
      ensures (a + b)[i] != (a + b)[j]
    {
      if j < |a| {
        assert (a + b)[i] == a[i] && (a + b)[j] == a[j];
      } else if i < |a| {
        assert (a + b)[i] == a[i] && (a + b)[j] == b[j - |a|];
      } else {
        assert (a + b)[i] == b[i - |a|] && (a + b)[j] == b[j - |a|];
      }
    }
  }

  /** Tile (x, y) of level `level`. */
  datatype TileJob = TileJob(level: nat, x: nat, y: nat)

  /** Row y of a level: tiles x = 0, 1, … in order. */
  function Row(level: nat, y: nat, n: nat): (r: seq<TileJob>)
    ensures |r| == n && forall k :: 0 <= k < n ==> r[k] == TileJob(level, k, y)
  {
    seq(n, k requires 0 <= k < n => TileJob(level, k, y))
  }

  /** A row grows by one tile at its right end. */
  lemma RowStep(level: nat, y: nat, x: nat)
    ensures Row(level, y, x + 1) == Row(level, y, x) + [TileJob(level, x, y)]
  {
  }

  /** The tiles of one level as the loops visit them: row by row, and
      along each row from left to right. */
  function LevelJobs(level: nat, columns: nat, rows: nat): seq<TileJob>
    decreases rows
  {
    if rows == 0 then [] else LevelJobs(level, columns, rows - 1) + Row(level, rows - 1, columns)
  }

  /** A level visits exactly the tiles of its grid. */
  lemma {:induction false} LevelJobsMembers(level: nat, columns: nat, rows: nat, t: TileJob)
    ensures t in LevelJobs(level, columns, rows) <==> t.level == level && t.x < columns && t.y < rows
    decreases rows
  {
    if rows > 0 {
      LevelJobsMembers(level, columns, rows - 1, t);
      assert t in Row(level, rows - 1, columns) <==> t.level == level && t.x < columns && t.y == rows - 1 by {
        if t.level == level && t.x < columns && t.y == rows - 1 {
          assert Row(level, rows - 1, columns)[t.x] == t;
        }
      }
    }
  }

  /** … and each of them once. */
  lemma {:induction false} LevelJobsDistinct(level: nat, columns: nat, rows: nat)
    ensures Distinct(LevelJobs(level, columns, rows))
    decreases rows
  {
    if rows > 0 {
      LevelJobsDistinct(level, columns, rows - 1);
      var head := LevelJobs(level, columns, rows - 1);
      forall i | 0 <= i < |head|
        ensures head[i] !in Row(level, rows - 1, columns)
      {
        LevelJobsMembers(level, columns, rows - 1, head[i]);
      }
      DistinctConcat(LevelJobs(level, columns, rows - 1), Row(level, rows - 1, columns));
    }
  }

  /** The side of a face at `level` when the face starts out at that side
      and is halved once per level below `top`. */
  function LevelSide(n: nat, top: nat, level: nat): nat
    requires level <= top
  {
    HalvedTimes(n, top - level)
  }

  /** The tiles of levels `level`, level - 1, …, 0, in that order. */
  function PlanFrom(width: nat, height: nat, tile: nat, top: nat, level: int): seq<TileJob>
    requires tile >= 1 && level <= top
    decreases level + 1
  {
    if level < 0 then []
    else
      var g := TileGrid(LevelSide(width, top, level), LevelSide(height, top, level), tile);
      LevelJobs(level, g.0, g.1) + PlanFrom(width, height, tile, top, level - 1)
  }

  /** The tiles the level loops cut a width × height face into, given its
      top level. */
  function Plan(width: nat, height: nat, tile: nat, top: nat): seq<TileJob>
    requires tile >= 1
  {
    PlanFrom(width, height, tile, top, top)
  }

  /** Every level from `top` down to 0 is cut along its own grid: a tile is
      visited exactly when it lies in the grid of its level. */
  lemma {:induction false} PlanFromMembers(width: nat, height: nat, tile: nat, top: nat, level: int, t: TileJob)
    requires tile >= 1 && level <= top
    ensures t in PlanFrom(width, height, tile, top, level) <==>
              t.level <= level &&
              var g := TileGrid(LevelSide(width, top, t.level), LevelSide(height, top, t.level), tile);
              t.x < g.0 && t.y < g.1
    decreases level + 1
  {
    if level >= 0 {
      var g := TileGrid(LevelSide(width, top, level), LevelSide(height, top, level), tile);
      LevelJobsMembers(level, g.0, g.1, t);
      PlanFromMembers(width, height, tile, top, level - 1, t);
    }
  }

  /** No tile is visited twice. */
  lemma {:induction false} PlanFromDistinct(width: nat, height: nat, tile: nat, top: nat, level: int)
    requires tile >= 1 && level <= top
    ensures Distinct(PlanFrom(width, height, tile, top, level))
    decreases level + 1
  {
    if level >= 0 {
      var g := TileGrid(LevelSide(width, top, level), LevelSide(height, top, level), tile);
      LevelJobsDistinct(level, g.0, g.1);
      PlanFromDistinct(width, height, tile, top, level - 1);
      var head := LevelJobs(level, g.0, g.1);
      forall i | 0 <= i < |head|
        ensures head[i] !in PlanFrom(width, height, tile, top, level - 1)
      {
        LevelJobsMembers(level, g.0, g.1, head[i]);
        PlanFromMembers(width, height, tile, top, level - 1, head[i]);
      }
      DistinctConcat(LevelJobs(level, g.0, g.1), PlanFrom(width, height, tile, top, level - 1));
    }
  }

  predicate Descending(s: seq<TileJob>) {
    forall i, j :: 0 <= i < j < |s| ==> s[i].level >= s[j].level
  }

  /** Levels are cut from the top level down: a later tile never has a
      higher level than an earlier one. */
  lemma {:induction false} PlanFromDescends(width: nat, height: nat, tile: nat, top: nat, level: int)
    requires tile >= 1 && level <= top
    ensures Descending(PlanFrom(width, height, tile, top, level))
    decreases level + 1
  {
    if level >= 0 {
      var g := TileGrid(LevelSide(width, top, level), LevelSide(height, top, level), tile);
      var head, rest := LevelJobs(level, g.0, g.1), PlanFrom(width, height, tile, top, level - 1);
      PlanFromDescends(width, height, tile, top, level - 1);
      forall i | 0 <= i < |head|
        ensures head[i].level == level
      {
        LevelJobsMembers(level, g.0, g.1, head[i]);
      }
      forall i | 0 <= i < |rest|
        ensures rest[i].level < level
      {
        PlanFromMembers(width, height, tile, top, level - 1, rest[i]);
      }
      var s := head + rest;
      forall i, j | 0 <= i < j < |s|
        ensures s[i].level >= s[j].level
      {
        if j < |head| {
          assert s[i] == head[i] && s[j] == head[j];
          assert head[i].level == level && head[j].level == level;
        } else if i < |head| {
          assert s[i] == head[i] && s[j] == rest[j - |head|];
          assert head[i].level == level && rest[j - |head|].level < level;
        } else {
          assert s[i] == rest[i - |head|] && s[j] == rest[j - |head|];
        }
      }
    }
  }

  /** The level and tile loops of one face, on sizes: from the top level
      `getMaxLevel` finds down to level 0, every tile of the level's grid
      row by row, the face halved after each level. The counts are taken
      as the converter takes them (columns from the height, rows from the
      width); faces are square, and on a square face these are the
      counts of the grid. */
  method PlanFace(width: nat, height: nat, tile: nat) returns (top: nat, jobs: seq<TileJob>)
    requires tile >= 1 && width == height
    ensures IsMaxLevel(width, height, tile, top)
    ensures jobs == Plan(width, height, tile, top)
  {
    top := GetMaxLevel(width, height, tile);
    var level: int := top;
    var w, h := width, height;
    jobs := [];
    while level >= 0
      invariant -1 <= level <= top
      invariant w == h
      invariant level >= 0 ==> w == LevelSide(width, top, level) && h == LevelSide(height, top, level)
      invariant jobs + PlanFrom(width, height, tile, top, level) == Plan(width, height, tile, top)
    {
      var g := TileGridAsWritten(w, h, tile);
      SquareGridAgrees(w, tile);
      ghost var before := jobs;
      jobs := VisitLevel(jobs, level, g.0, g.1);
      PlanFromStep(width, height, tile, top, level);
      ConcatAssoc(before, LevelJobs(level, g.0, g.1), PlanFrom(width, height, tile, top, level - 1));
      if level > 0 {
        LevelSideStep(width, top, level);
        LevelSideStep(height, top, level);
      }
      w, h := Halve(w), Halve(h);
      level := level - 1;
    }
  }

  /** The plan from a level is that level's grid followed by the plan below it. */
  lemma PlanFromStep(width: nat, height: nat, tile: nat, top: nat, level: nat)
    requires tile >= 1 && level <= top
    ensures var g := TileGrid(LevelSide(width, top, level), LevelSide(height, top, level), tile);
            PlanFrom(width, height, tile, top, level) == LevelJobs(level, g.0, g.1) + PlanFrom(width, height, tile, top, level - 1)
  {
  }

  /** One level down, a side is halved once more. */
  lemma LevelSideStep(n: nat, top: nat, level: nat)
    requires 1 <= level <= top
    ensures LevelSide(n, top, level - 1) == Halve(LevelSide(n, top, level))
  {
    assert top - (level - 1) == (top - level) + 1;
  }

  /** The two tile loops of one level: rows top to bottom, each row left to
      right, every visited tile appended to `jobs`. */
  method VisitLevel(jobs0: seq<TileJob>, level: nat, countX: nat, countY: nat) returns (jobs: seq<TileJob>)
    ensures jobs == jobs0 + LevelJobs(level, countX, countY)
  {
    jobs := jobs0;
    for y := 0 to countY
      invariant jobs == jobs0 + LevelJobs(level, countX, y)
    {
      ghost var done := jobs;
      for x := 0 to countX
        invariant jobs == done + Row(level, y, x)
      {
        RowStep(level, y, x);
        ConcatAssoc(done, Row(level, y, x), [TileJob(level, x, y)]);
        jobs := jobs + [TileJob(level, x, y)];
      }
      ConcatAssoc(jobs0, LevelJobs(level, countX, y), Row(level, y, countX));
    }
  }

  /** All tile paths of a face are different. */
  lemma PlanPathsDistinct(face: Face, width: nat, height: nat, tile: nat, top: nat, i: nat, j: nat)
    requires tile >= 1
    requires i < j < |Plan(width, height, tile, top)|
    ensures var s := Plan(width, height, tile, top);
            TilePath(TileName(face, s[i].level, s[i].x, s[i].y)) != TilePath(TileName(face, s[j].level, s[j].x, s[j].y))
  {
    var s := Plan(width, height, tile, top);
    PlanFromDistinct(width, height, tile, top, top);
    TilePathInjective(TileName(face, s[i].level, s[i].x, s[i].y), TileName(face, s[j].level, s[j].x, s[j].y));
  }

  // ---------------------------------------------------------------------
  // Vertical placement
  // ---------------------------------------------------------------------

  /** `yOff`, the offset that centres a panorama `height` high within a
      2:1 panorama `width` wide: the gap left below it is the gap above, r,
      or at most two rows more. */
  function YOffset(width: nat, height: nat): (r: int)
    ensures 4 * r <= width - 2 * height < 4 * r + 4
    ensures var below := width as real / 2.0 - (r + height) as real;
            r as real <= below < r as real + 2.0
  {
    ((width as real / 2.0 - height as real) / 2.0).Floor
  }
}
