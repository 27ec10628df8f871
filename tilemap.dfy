/** The tile map of game.py: pixel colours classified into tile types,
    laid out row-major, the single START cell rewritten to FLOOR, and the
    bounds-checked lookup `map_tile`. */
module TileMap {
  import opened Common

  /** One colour channel of a pixel. */
  newtype Byte = x: int | 0 <= x < 256

  /** A pixel as `rl.load_image_colors` yields it. */
  datatype Rgba = Rgba(r: Byte, g: Byte, b: Byte, a: Byte)

  /** `TileType`: NONE, FLOOR, START and FIRE. */
  datatype TileType = NoTile | Floor | Start | Fire

  type Pos = (int, int)

  const StartColour: Rgba := Rgba(255, 0, 255, 255)
  const FireColour: Rgba := Rgba(255, 0, 0, 255)
  const FloorColour: Rgba := Rgba(0, 0, 0, 255)

  /** The colour table `tile_type`. */
  const TileTable: map<Rgba, TileType> :=
    map[StartColour := Start, FireColour := Fire, FloorColour := Floor]

  /** `tile_type.get(colour, TileType.NONE)`: exactly three colours have a
      tile type, every other colour is NONE. */
  function TileOf(c: Rgba): (t: TileType)
    ensures t == Start <==> c == StartColour
    ensures t == Fire <==> c == FireColour
    ensures t == Floor <==> c == FloorColour
    ensures t == NoTile <==> c != StartColour && c != FireColour && c != FloorColour
  {
    if c in TileTable then TileTable[c] else NoTile
  }

  /** The loaded map: `map_img.width`, `map_img.height` and the rows of `maparr`. */
  datatype Grid = Grid(width: nat, height: nat, rows: seq<seq<TileType>>)
  {
    /** `maparr` has the shape `(height, width)`. */
    ghost predicate Valid()
    {
      |rows| == height && forall y :: 0 <= y < |rows| ==> |rows[y]| == width
    }

    predicate InBounds(p: Pos)
    {
      0 <= p.0 < width && 0 <= p.1 < height
    }
  }

  /** Cell `(x, y)` of a `width`-wide row-major image is pixel `y * width + x`. */
  lemma CellIndex(x: int, y: int, width: nat, height: nat)
    requires 0 <= x < width && 0 <= y < height
    ensures 0 <= y * width + x < width * height
    ensures (y * width + x) / width == y && (y * width + x) % width == x
  {
    MulNonneg(y, width);
    MulDist(height - 1, y, width);
    MulNonneg(height - 1 - y, width);
    MulDist(height, height - 1, width);
    DivModUnique(y * width + x, width, y, x);
  }

  lemma DivModUnique(i: int, w: int, q: int, r: int)
    requires w > 0 && 0 <= r < w && i == q * w + r
    ensures i / w == q && i % w == r
  {
    var q', r' := i / w, i % w;
    assert i == q' * w + r';
    if q' > q {
      MulDist(q', q, w);
      MulAtLeast(q' - q, w);
    } else if q' < q {
      MulDist(q, q', w);
      MulAtLeast(q - q', w);
    }
  }

  lemma MulDist(a: int, b: int, w: int)
    ensures a * w - b * w == (a - b) * w
  {
  }

  lemma MulNonneg(a: int, w: int)
    requires a >= 0 && w >= 0
    ensures a * w >= 0
  {
  }

  lemma MulAtLeast(a: int, w: int)
    requires a >= 1 && w > 0
    ensures a * w >= w
  {
  }

  /** A pixel index is determined by its row and column. */
  lemma DivModSame(i: int, j: int, w: int)
    requires w > 0 && i / w == j / w && i % w == j % w
    ensures i == j
  {
  }

  lemma AreaStep(width: nat, height: nat)
    requires width * height > 0
    ensures width > 0 && height > 0 && width * height == width + width * (height - 1)
  {
  }

  lemma DivStep(j: int, w: int)
    requires j >= 0 && w > 0
    ensures (j + w) / w == j / w + 1 && (j + w) % w == j % w
  {
    MulDist(j / w + 1, j / w, w);
    DivModUnique(j + w, w, j / w + 1, j % w);
  }

  /** The pixel behind cell `(x, y)`. */
  function PixelAt(pixels: seq<Rgba>, width: nat, height: nat, x: int, y: int): Rgba
    requires |pixels| == width * height && 0 <= x < width && 0 <= y < height
  {
    CellIndex(x, y, width, height);
    pixels[y * width + x]
  }

  /** The classified pixels of one row: the list comprehension over `tile_type.get`. */
  function Classify(pixels: seq<Rgba>): (row: seq<TileType>)
    ensures |row| == |pixels|
    ensures forall x :: 0 <= x < |pixels| ==> row[x] == TileOf(pixels[x])
  {
    seq(|pixels|, x requires 0 <= x < |pixels| => TileOf(pixels[x]))
  }

  /** `np.array([...]).reshape((height, width))` over the classified pixels:
      `height` rows of `width` tiles each. */
  function Rows(pixels: seq<Rgba>, width: nat, height: nat): (rows: seq<seq<TileType>>)
    requires |pixels| == width * height
    ensures Grid(width, height, rows).Valid()
  {
    if height == 0 then []
    else
      assert width * height == width + width * (height - 1);
      [Classify(pixels[..width])] + Rows(pixels[width..], width, height - 1)
  }

  /** Pixel `i` lands at row `i / width`, column `i % width`. */
  lemma {:induction false} PixelPlacement(pixels: seq<Rgba>, width: nat, height: nat, i: int)
    requires |pixels| == width * height && 0 <= i < |pixels|
    ensures width > 0 && 0 <= i / width < height && 0 <= i % width < width
    ensures Rows(pixels, width, height)[i / width][i % width] == TileOf(pixels[i])
  {
    AreaStep(width, height);
    if i < width {
      DivModUnique(i, width, 0, i);
    } else {
      var j := i - width;
      PixelPlacement(pixels[width..], width, height - 1, j);
      DivStep(j, width);
    }
  }

  /** Cell `(x, y)` of the reshaped map holds the class of its pixel. */
  lemma CellPlacement(pixels: seq<Rgba>, width: nat, height: nat, x: int, y: int)
    requires |pixels| == width * height && 0 <= x < width && 0 <= y < height
    ensures Rows(pixels, width, height)[y][x] == TileOf(PixelAt(pixels, width, height, x, y))
  {
    CellIndex(x, y, width, height);
    PixelPlacement(pixels, width, height, y * width + x);
  }

  /** Row `y`'s START cells with column below `n`, in column order. */
  function RowStarts(row: seq<TileType>, y: int, n: nat): (r: seq<Pos>)
    requires n <= |row|
    ensures forall p :: p in r <==> p.1 == y && 0 <= p.0 < n && row[p.0] == Start
    ensures forall i, j :: 0 <= i < j < |r| ==> r[i].0 < r[j].0
  {
    if n == 0 then []
    else RowStarts(row, y, n - 1) + (if row[n - 1] == Start then [(n - 1, y)] else [])
  }

  /** `np.where(maparr == TileType.START)` over the first `n` rows, as cells
      in row-major order. */
  function StartCells(rows: seq<seq<TileType>>, n: nat): (r: seq<Pos>)
    requires n <= |rows|
    ensures forall p :: p in r <==>
              0 <= p.1 < n && 0 <= p.0 < |rows[p.1]| && rows[p.1][p.0] == Start
    ensures forall i, j :: 0 <= i < j < |r| ==> RowMajorBefore(r[i], r[j])
  {
    if n == 0 then []
    else StartCells(rows, n - 1) + RowStarts(rows[n - 1], n - 1, |rows[n - 1]|)
  }

  predicate RowMajorBefore(p: Pos, q: Pos)
  {
    p.1 < q.1 || (p.1 == q.1 && p.0 < q.0)
  }

  /** The unpacking `(y,), (x,) = np.where(...)` raises unless there is
      exactly one START cell; `found` is how many there were. */
  datatype LoadError = StartCount(found: nat)

  /** The map after loading, and the spawn cell `start`. */
  datatype Level = Level(grid: Grid, start: Pos)

  /** Exactly one pixel has the START colour. */
  ghost predicate OneStartPixel(pixels: seq<Rgba>)
  {
    exists i :: 0 <= i < |pixels| && pixels[i] == StartColour
      && forall j :: 0 <= j < |pixels| && pixels[j] == StartColour ==> j == i
  }

  /** Map load: classify, reshape, find the single START cell and rewrite it
      to FLOOR. */
  function Load(pixels: seq<Rgba>, width: nat, height: nat): (r: Result<Level, LoadError>)
    requires |pixels| == width * height
    ensures r.Ok? <==> OneStartPixel(pixels)
    ensures r.Ok? ==> LoadedFrom(r.value, pixels, width, height)
  {
    var rows := Rows(pixels, width, height);
    var starts := StartCells(rows, height);
    LoadCount(pixels, width, height);
    if |starts| != 1 then Err(StartCount(|starts|))
    else
      var (x, y) := starts[0];
      assert starts[0] in starts;
      var level := Level(Grid(width, height, rows[y := rows[y][x := Floor]]), (x, y));
      LoadedLevel(pixels, width, height, level);
      Ok(level)
  }

  /** What a successful load promises: the shape, a spawn cell that held the
      START colour and now holds FLOOR, every other cell classified from its
      pixel, and no START left anywhere. */
  ghost predicate LoadedFrom(level: Level, pixels: seq<Rgba>, width: nat, height: nat)
    requires |pixels| == width * height
  {
    var g, s := level.grid, level.start;
    g.width == width && g.height == height && g.Valid() && g.InBounds(s)
    && PixelAt(pixels, width, height, s.0, s.1) == StartColour
    && g.rows[s.1][s.0] == Floor
    && (forall y, x {:trigger g.rows[y][x]} :: 0 <= y < height && 0 <= x < width && (x, y) != s ==>
          g.rows[y][x] == TileOf(PixelAt(pixels, width, height, x, y)))
    && (forall y, x {:trigger g.rows[y][x]} :: 0 <= y < height && 0 <= x < width ==> g.rows[y][x] != Start)
  }

  /** There is exactly one START cell exactly when exactly one pixel has the
      START colour. */
  lemma {:induction false} LoadCount(pixels: seq<Rgba>, width: nat, height: nat)
    requires |pixels| == width * height
    ensures |StartCells(Rows(pixels, width, height), height)| == 1 <==> OneStartPixel(pixels)
  {
    if |StartCells(Rows(pixels, width, height), height)| == 1 {
      OneCellOnePixel(pixels, width, height);
    }
    if OneStartPixel(pixels) {
      OnePixelOneCell(pixels, width, height);
    }
  }

  lemma {:induction false} OneCellOnePixel(pixels: seq<Rgba>, width: nat, height: nat)
    requires |pixels| == width * height
    requires |StartCells(Rows(pixels, width, height), height)| == 1
    ensures OneStartPixel(pixels)
  {
    var rows := Rows(pixels, width, height);
    var starts := StartCells(rows, height);
    var (x, y) := starts[0];
    assert starts[0] in starts;
    CellIndex(x, y, width, height);
    CellPlacement(pixels, width, height, x, y);
    var i := y * width + x;
    assert pixels[i] == StartColour;
    forall j | 0 <= j < |pixels| && pixels[j] == StartColour
      ensures j == i
    {
      StartPixelCell(pixels, width, height, j);
      assert starts[0] == (j % width, j / width);
      DivModSame(i, j, width);
    }
  }

  /** A START pixel shows up among the START cells, at its row and column. */
  lemma StartPixelCell(pixels: seq<Rgba>, width: nat, height: nat, j: int)
    requires |pixels| == width * height && 0 <= j < |pixels| && pixels[j] == StartColour
    ensures width > 0
    ensures (j % width, j / width) in StartCells(Rows(pixels, width, height), height)
  {
    var rows := Rows(pixels, width, height);
    PixelPlacement(pixels, width, height, j);
    var x, y := j % width, j / width;
    assert 0 <= y < |rows| && |rows[y]| == width;
    assert 0 <= x < |rows[y]| && rows[y][x] == Start;
  }

  lemma {:induction false} OnePixelOneCell(pixels: seq<Rgba>, width: nat, height: nat)
    requires |pixels| == width * height
    requires OneStartPixel(pixels)
    ensures |StartCells(Rows(pixels, width, height), height)| == 1
  {
    var rows := Rows(pixels, width, height);
    var starts := StartCells(rows, height);
    var i :| 0 <= i < |pixels| && pixels[i] == StartColour
      && forall j :: 0 <= j < |pixels| && pixels[j] == StartColour ==> j == i;
    PixelPlacement(pixels, width, height, i);
    assert (i % width, i / width) in starts;
    forall a | 0 <= a < |starts|
      ensures starts[a] == (i % width, i / width)
    {
      StartCellPixel(pixels, width, height, starts[a], i);
    }
    var last := |starts| - 1;
    assert starts[0] == starts[last];
  }

  /** A START cell of the reshaped map sits at the unique START pixel `i`. */
  lemma StartCellPixel(pixels: seq<Rgba>, width: nat, height: nat, c: Pos, i: int)
    requires |pixels| == width * height && 0 <= i < |pixels|
    requires forall j :: 0 <= j < |pixels| && pixels[j] == StartColour ==> j == i
    requires c in StartCells(Rows(pixels, width, height), height)
    ensures width > 0 && c == (i % width, i / width)
  {
    var rows := Rows(pixels, width, height);
    var (x, y) := c;
    assert 0 <= y < height && 0 <= x < |rows[y]| && rows[y][x] == Start;
    assert |rows[y]| == width;
    CellIndex(x, y, width, height);
    CellPlacement(pixels, width, height, x, y);
    var k := y * width + x;
    assert PixelAt(pixels, width, height, x, y) == pixels[k];
    assert pixels[k] == StartColour;
    assert k == i;
  }

  /** The grid that `Load` builds satisfies `LoadedFrom`. */
  lemma {:induction false} LoadedLevel(pixels: seq<Rgba>, width: nat, height: nat, level: Level)
    requires |pixels| == width * height
    requires OneStartPixel(pixels)
    requires var rows := Rows(pixels, width, height);
             var (x, y) := level.start;
             0 <= x < width && 0 <= y < height && rows[y][x] == Start
             && level.grid == Grid(width, height, rows[y := rows[y][x := Floor]])
    ensures LoadedFrom(level, pixels, width, height)
  {
    var rows := Rows(pixels, width, height);
    var (sx, sy) := level.start;
    CellIndex(sx, sy, width, height);
    CellPlacement(pixels, width, height, sx, sy);
    var si := sy * width + sx;
    var i :| 0 <= i < |pixels| && pixels[i] == StartColour
      && forall j :: 0 <= j < |pixels| && pixels[j] == StartColour ==> j == i;
    assert si == i;
    forall y, x | 0 <= y < height && 0 <= x < width && (x, y) != (sx, sy)
      ensures level.grid.rows[y][x] == TileOf(PixelAt(pixels, width, height, x, y)) != Start
    {
      CellIndex(x, y, width, height);
      CellPlacement(pixels, width, height, x, y);
      var k := y * width + x;
      assert k != si;
    }
  }

  /** `map_tile`: the stored tile inside the map, NONE everywhere outside it. */
  function MapTile(g: Grid, p: Pos): (t: TileType)
    requires g.Valid()
    ensures !g.InBounds(p) ==> t == NoTile
    ensures g.InBounds(p) ==> t == g.rows[p.1][p.0]
  {
    if g.InBounds(p) then g.rows[p.1][p.0] else NoTile
  }

  /** After a successful load, `map_tile` reads FLOOR at the spawn cell, the
      class of its pixel's colour at every other cell of the image, and NONE
      off the image. */
  lemma {:induction false} MapTileAfterLoad(pixels: seq<Rgba>, width: nat, height: nat, p: Pos)
    requires |pixels| == width * height
    requires OneStartPixel(pixels)
    ensures var level := Load(pixels, width, height).value;
            MapTile(level.grid, p) ==
              if p == level.start then Floor
              else if 0 <= p.0 < width && 0 <= p.1 < height then TileOf(PixelAt(pixels, width, height, p.0, p.1))
              else NoTile
  {
    var level := Load(pixels, width, height).value;
    assert LoadedFrom(level, pixels, width, height);
    if 0 <= p.0 < width && 0 <= p.1 < height && p != level.start {
      assert level.grid.rows[p.1][p.0] == TileOf(PixelAt(pixels, width, height, p.0, p.1));
    }
  }
}
