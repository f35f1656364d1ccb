/**
  Coordinate helpers shared by the map and tile canvases: screen to grid
  conversion, bounds checks, and the row-major index of a grid cell.

  The canvas draws with the transform `screen = world * scale + offset`, so a
  grid cell `i` of size `size` world units covers the screen interval
  `[offset + i*size*scale, offset + (i+1)*size*scale)`.
 */
module MapUtils {

  datatype Coord = Coord(x: int, y: int)

  /** The screen span of grid cell `i` along one axis contains `s`. */
  predicate CellContains(offset: real, cellSize: real, i: int, s: real) {
    offset + (i as real) * cellSize <= s < offset + (i as real + 1.0) * cellSize
  }

  lemma MulMonotone(a: real, b: real, c: real)
    requires a <= b && c >= 0.0
    ensures a * c <= b * c
  {
    assert (b - a) * c >= 0.0;
  }
  lemma MulStrict(a: real, b: real, c: real)
    requires a < b && c > 0.0
    ensures a * c < b * c
  {
    var d := b - a;
    assert d > 0.0;
    assert d * c > 0.0;
    assert b * c == a * c + d * c;
  }
  lemma CellsDisjoint(offset: real, cellSize: real, lo: int, hi: int, s: real)
    requires cellSize > 0.0 && lo < hi
    requires CellContains(offset, cellSize, lo, s)
    ensures !CellContains(offset, cellSize, hi, s)
  {
    MulMonotone(lo as real + 1.0, hi as real, cellSize);
  }
  /** At most one cell of a grid with positive cell size contains a screen position. */
  lemma CellUnique(offset: real, cellSize: real, i: int, j: int, s: real)
    requires cellSize > 0.0
    requires CellContains(offset, cellSize, i, s) && CellContains(offset, cellSize, j, s)
    ensures i == j
  {
    if i < j {
      CellsDisjoint(offset, cellSize, i, j, s);
    } else if j < i {
      CellsDisjoint(offset, cellSize, j, i, s);
    }
  }
  lemma FloorBounds(x: real, size: real)
    requires size > 0.0
    ensures ((x / size).Floor as real) * size <= x < ((x / size).Floor as real + 1.0) * size
  {
    var q := x / size;
    var f := q.Floor as real;
    assert x == q * size;
    MulMonotone(f, q, size);
    var g := f + 1.0;
    MulStrict(q, g, size);
    assert q * size < g * size;
    assert x < g * size;
  }
  /** `floor(world / size)` is the cell whose screen span holds the screen position. */
  lemma FloorLocatesCell(s: real, offset: real, scale: real, size: real)
    requires scale > 0.0 && size > 0.0
    ensures CellContains(offset, scale * size, (((s - offset) / scale) / size).Floor, s)
  {
    var world := (s - offset) / scale;
    FloorBounds(world, size);
    var f := (world / size).Floor as real;
    MulMonotone(f * size, world, scale);
    MulStrict(world, (f + 1.0) * size, scale);
    assert s - offset == world * scale;
    assert f * (scale * size) == f * size * scale;
    assert (f + 1.0) * (scale * size) == (f + 1.0) * size * scale;
  }

  /**
    The tile under a screen position: screen to world by undoing pan and zoom,
    then `Math.floor` of world / tile size, per axis. Never absent.
   */
  function ScreenToTileCoords(screenX: real, screenY: real, scale: real, offsetX: real, offsetY: real,
                              tilewidth: real, tileheight: real): (c: Coord)
    requires scale > 0.0 && tilewidth > 0.0 && tileheight > 0.0
    ensures CellContains(offsetX, scale * tilewidth, c.x, screenX)
    ensures CellContains(offsetY, scale * tileheight, c.y, screenY)
  {
    FloorLocatesCell(screenX, offsetX, scale, tilewidth);
    FloorLocatesCell(screenY, offsetY, scale, tileheight);
    var worldX := (screenX - offsetX) / scale;
    var worldY := (screenY - offsetY) / scale;
    Coord((worldX / tilewidth).Floor, (worldY / tileheight).Floor)
  }

  predicate IsValidTileCoord(x: int, y: int, mapWidth: int, mapHeight: int) {
    x >= 0 && x < mapWidth && y >= 0 && y < mapHeight
  }

  function TileCoordsToIndex(x: int, y: int, width: int): int {
    y * width + x
  }

  /** Euclidean division is determined by quotient and remainder. */
  lemma DivModUnique(q: int, r: int, w: int)
    requires w > 0 && 0 <= r < w
    ensures (q * w + r) / w == q
    ensures (q * w + r) % w == r
  {
    var i := q * w + r;
    var d := i / w - q;
    assert i == (i / w) * w + i % w;
    assert d * w == r - i % w by {
      assert (i / w) * w == (q + d) * w == q * w + d * w;
    }
  }

  /**
    Cell coordinates of a row-major index: `Math.floor(index / width)` and
    JavaScript's truncating `index % width`.
   */
  function IndexToTileCoords(index: int, width: int): (c: Coord)
    requires width > 0
    ensures index >= 0 ==> 0 <= c.x < width && c.y >= 0 && TileCoordsToIndex(c.x, c.y, width) == index
    ensures index < 0 ==> -width < c.x <= 0 && c.y < 0
  {
    var y := index / width;
    var x := if index >= 0 then index % width else -((-index) % width);
    Coord(x, y)
  }

  /** A valid cell has an index inside the layer's data array. */
  lemma ValidCoordIndexInRange(x: int, y: int, width: int, height: int)
    requires IsValidTileCoord(x, y, width, height)
    ensures 0 <= TileCoordsToIndex(x, y, width) < width * height
  {
    assert y * width <= (height - 1) * width by {
      assert (height - 1 - y) * width >= 0;
    }
    assert (height - 1) * width + width == height * width;
  }

  /** Index and coordinates are inverse on valid cells. */
  lemma IndexCoordsRoundTrip(x: int, y: int, width: int, height: int)
    requires IsValidTileCoord(x, y, width, height)
    ensures IndexToTileCoords(TileCoordsToIndex(x, y, width), width) == Coord(x, y)
  {
    ValidCoordIndexInRange(x, y, width, height);
    DivModUnique(y, x, width);
  }

  /** Every index of a `width * height` array names a valid cell, and back. */
  lemma CoordsIndexRoundTrip(index: int, width: int, height: int)
    requires width > 0 && 0 <= index < width * height
    ensures var c := IndexToTileCoords(index, width);
            IsValidTileCoord(c.x, c.y, width, height) && TileCoordsToIndex(c.x, c.y, width) == index
  {
    var c := IndexToTileCoords(index, width);
  }

  /** Distinct valid cells have distinct indices. */
  lemma IndexInjective(x1: int, y1: int, x2: int, y2: int, width: int, height: int)
    requires IsValidTileCoord(x1, y1, width, height) && IsValidTileCoord(x2, y2, width, height)
    ensures TileCoordsToIndex(x1, y1, width) == TileCoordsToIndex(x2, y2, width) ==> x1 == x2 && y1 == y2
  {
    IndexCoordsRoundTrip(x1, y1, width, height);
    IndexCoordsRoundTrip(x2, y2, width, height);
  }
}
