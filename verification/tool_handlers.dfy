/**
  The pixel tools of the tile editor: pencil, eraser, breadth-first flood
  fill and colour picker, plus the screen to pixel conversion they share.
  Every edit returns a new buffer; an edit outside the tile returns the
  original buffer.
 */
module ToolHandlers {
  import opened Wrappers
  import opened Types
  import opened MapUtils
  import opened TileUtils

  /** Every pixel other than `(x, y)` reads the same in `d` as in the tile. */
  ghost predicate OthersUnchanged(tile: Tile, d: seq<Byte>, x: int, y: int)
    requires WellFormedTile(tile) && |d| == |tile.data|
  {
    forall x2, y2 :: (x2 != x || y2 != y) ==>
      GetPixelColor(tile.(data := d), x2, y2) == GetPixelColor(tile, x2, y2)
  }

  lemma SetPixelFrame(tile: Tile, x: int, y: int, c: Rgba)
    requires WellFormedTile(tile)
    ensures OthersUnchanged(tile, SetPixelColor(tile, x, y, c.r, c.g, c.b, c.a), x, y)
  {
    if InBounds(tile, x, y) {
      forall x2, y2 | x2 != x || y2 != y
        ensures GetPixelColor(tile.(data := SetPixelColor(tile, x, y, c.r, c.g, c.b, c.a)), x2, y2)
                == GetPixelColor(tile, x2, y2)
      {
        GetAfterSetOther(tile, x, y, c, x2, y2);
      }
    }
  }

  /**
    Pencil: pixel `(x, y)` takes the decoded colour and every other pixel
    keeps its colour; outside the tile the buffer is returned as it was.
   */
  function DrawPixel(tile: Tile, x: int, y: int, color: string): (d: seq<Byte>)
    requires WellFormedTile(tile) && IsHexColor(color)
    ensures |d| == |tile.data|
    ensures !InBounds(tile, x, y) ==> d == tile.data
    ensures InBounds(tile, x, y) ==> GetPixelColor(tile.(data := d), x, y) == Some(HexToRgba(color))
    ensures OthersUnchanged(tile, d, x, y)
  {
    var c := HexToRgba(color);
    if InBounds(tile, x, y) then GetAfterSet(tile, x, y, c); SetPixelFrame(tile, x, y, c);
      SetPixelColor(tile, x, y, c.r, c.g, c.b, c.a)
    else SetPixelColor(tile, x, y, c.r, c.g, c.b, c.a)
  }

  /** Eraser: like the pencil with fully transparent black (0, 0, 0, 0). */
  function ErasePixel(tile: Tile, x: int, y: int): (d: seq<Byte>)
    requires WellFormedTile(tile)
    ensures |d| == |tile.data|
    ensures !InBounds(tile, x, y) ==> d == tile.data
    ensures InBounds(tile, x, y) ==> GetPixelColor(tile.(data := d), x, y) == Some(Rgba(0, 0, 0, 0))
    ensures OthersUnchanged(tile, d, x, y)
  {
    var c := Rgba(0, 0, 0, 0);
    if InBounds(tile, x, y) then GetAfterSet(tile, x, y, c); SetPixelFrame(tile, x, y, c);
      SetPixelColor(tile, x, y, 0, 0, 0, 0)
    else SetPixelColor(tile, x, y, 0, 0, 0, 0)
  }

  /**
    Colour picker: the pixel's colour as `#rrggbbaa` (the channel encoding is
    written out again here rather than calling `RgbaToHex`), absent outside
    the tile. The string is what `RgbaToHex` gives for the pixel, and
    decoding it gives back the pixel's colour.
   */
  function PickColor(tile: Tile, x: int, y: int): (c: Option<string>)
    requires WellFormedTile(tile)
    ensures c.None? <==> !InBounds(tile, x, y)
    ensures c.Some? ==> var p := GetPixelColor(tile, x, y).value;
                        c.value == RgbaToHex(p.r, p.g, p.b, p.a)
    ensures c.Some? ==> |c.value| == 9 && IsHexColor(c.value) &&
                        HexToRgba(c.value) == GetPixelColor(tile, x, y).value
  {
    match GetPixelColor(tile, x, y)
    case None => None
    case Some(p) => Some("#" + ByteToHex(p.r) + ByteToHex(p.g) + ByteToHex(p.b) + ByteToHex(p.a))
  }

  /** Drawing the picked colour back onto the same pixel changes nothing. */
  lemma PickThenDraw(tile: Tile, x: int, y: int)
    requires WellFormedTile(tile) && InBounds(tile, x, y)
    ensures DrawPixel(tile, x, y, PickColor(tile, x, y).value) == tile.data
  {
    SetSameColor(tile, x, y);
  }

  /**
    The pixel under a screen position: screen to world by undoing pan and
    zoom, then `Math.floor` per axis. Never absent, even off the tile.
   */
  function ScreenToPixel(screenX: real, screenY: real, scale: real, offsetX: real, offsetY: real): (c: Coord)
    requires scale > 0.0
    ensures CellContains(offsetX, scale, c.x, screenX)
    ensures CellContains(offsetY, scale, c.y, screenY)
  {
    FloorLocatesCell(screenX, offsetX, scale, 1.0);
    FloorLocatesCell(screenY, offsetY, scale, 1.0);
    var worldX := (screenX - offsetX) / scale;
    var worldY := (screenY - offsetY) / scale;
    assert scale * 1.0 == scale && worldX / 1.0 == worldX && worldY / 1.0 == worldY;
    Coord(worldX.Floor, worldY.Floor)
  }

  /** Pixel lookup is tile lookup on a grid of one-unit tiles. */
  lemma ScreenToPixelIsUnitTiles(screenX: real, screenY: real, scale: real, offsetX: real, offsetY: real)
    requires scale > 0.0
    ensures ScreenToPixel(screenX, screenY, scale, offsetX, offsetY)
            == ScreenToTileCoords(screenX, screenY, scale, offsetX, offsetY, 1.0, 1.0)
  {
    var p := ScreenToPixel(screenX, screenY, scale, offsetX, offsetY);
    var t := ScreenToTileCoords(screenX, screenY, scale, offsetX, offsetY, 1.0, 1.0);
    assert scale * 1.0 == scale;
    CellUnique(offsetX, scale, p.x, t.x, screenX);
    CellUnique(offsetY, scale, p.y, t.y, screenY);
  }

  // ---------------------------------------------------------------------
  // Flood fill

  /** The four neighbours of a pixel, in the order the fill enqueues them: right, left, down, up. */
  function Neighbours(p: Coord): seq<Coord> {
    [Coord(p.x + 1, p.y), Coord(p.x - 1, p.y), Coord(p.x, p.y + 1), Coord(p.x, p.y - 1)]
  }

  /** A 4-connected walk through pixels of colour `target`. */
  ghost predicate IsRegionPath(tile: Tile, target: Rgba, path: seq<Coord>)
    requires WellFormedTile(tile)
  {
    && |path| > 0
    && (forall i :: 0 <= i < |path| ==> GetPixelColor(tile, path[i].x, path[i].y) == Some(target))
    && (forall i :: 0 <= i < |path| - 1 ==> path[i + 1] in Neighbours(path[i]))
  }

  /** `p` is reachable from `start` through 4-connected pixels of colour `target`. */
  ghost predicate Connected(tile: Tile, target: Rgba, start: Coord, p: Coord)
    requires WellFormedTile(tile)
  {
    exists path :: IsRegionPath(tile, target, path) && path[0] == start && path[|path| - 1] == p
  }

  /**
    The buffer a flood fill from `(sx, sy)` must produce: unchanged when the
    start is outside the tile or already has the fill colour; otherwise the
    region connected to the start takes the fill colour and every other byte
    stays as it was.
   */
  ghost function FloodFilled(tile: Tile, sx: int, sy: int, fill: Rgba): (d: seq<Byte>)
    requires WellFormedTile(tile)
    ensures |d| == |tile.data|
  {
    if !InBounds(tile, sx, sy) then tile.data
    else
      var target := GetPixelColor(tile, sx, sy).value;
      if target == fill then tile.data
      else
        seq(|tile.data|, i requires 0 <= i < |tile.data| =>
          if Connected(tile, target, Coord(sx, sy), PixelOfByte(tile.width, i))
          then Channel(fill, i % 4)
          else tile.data[i])
  }

  /** The start pixel, and any pixel next to the region, is a candidate for the region. */
  ghost predicate Candidate(tile: Tile, target: Rgba, start: Coord, p: Coord)
    requires WellFormedTile(tile)
  {
    p == start || exists q :: Connected(tile, target, start, q) && p in Neighbours(q)
  }

  lemma CandidateOfTargetIsConnected(tile: Tile, target: Rgba, start: Coord, p: Coord)
    requires WellFormedTile(tile)
    requires GetPixelColor(tile, start.x, start.y) == Some(target)
    requires Candidate(tile, target, start, p)
    requires GetPixelColor(tile, p.x, p.y) == Some(target)
    ensures Connected(tile, target, start, p)
  {
    if p == start {
      assert IsRegionPath(tile, target, [start]);
    } else {
      var q :| Connected(tile, target, start, q) && p in Neighbours(q);
      var path :| IsRegionPath(tile, target, path) && path[0] == start && path[|path| - 1] == q;
      ExtendRegionPath(tile, target, path, p);
      assert (path + [p])[0] == start;
    }
  }

  /** A region path extended by a target-coloured neighbour of its end is a region path. */
  lemma ExtendRegionPath(tile: Tile, target: Rgba, path: seq<Coord>, p: Coord)
    requires WellFormedTile(tile) && IsRegionPath(tile, target, path)
    requires p in Neighbours(path[|path| - 1]) && GetPixelColor(tile, p.x, p.y) == Some(target)
    ensures IsRegionPath(tile, target, path + [p])
  {
    var path' := path + [p];
    forall i | 0 <= i < |path'|
      ensures GetPixelColor(tile, path'[i].x, path'[i].y) == Some(target)
    {
      if i < |path| {
        assert path'[i] == path[i];
      }
    }
    forall i | 0 <= i < |path'| - 1
      ensures path'[i + 1] in Neighbours(path'[i])
    {
      assert path'[i] == path[i];
    }
  }

  lemma NeighboursAreCandidates(tile: Tile, target: Rgba, start: Coord, q: Coord)
    requires WellFormedTile(tile)
    requires Connected(tile, target, start, q)
    ensures forall n :: n in Neighbours(q) ==> Candidate(tile, target, start, n)
  {
  }

  /**
    A set of pixels that holds the start and is closed under stepping to a
    neighbour of colour `target` holds every pixel connected to the start.
   */
  lemma ClosedRegionContainsConnected(tile: Tile, target: Rgba, start: Coord, region: set<Coord>, p: Coord)
    requires WellFormedTile(tile)
    requires start in region
    requires forall q, n :: q in region && n in Neighbours(q) ==>
               n in region || GetPixelColor(tile, n.x, n.y) != Some(target)
    requires Connected(tile, target, start, p)
    ensures p in region
  {
    var path :| IsRegionPath(tile, target, path) && path[0] == start && path[|path| - 1] == p;
    var i := 0;
    while i < |path| - 1
      invariant 0 <= i < |path|
      invariant path[i] in region
    {
      assert path[i + 1] in Neighbours(path[i]);
      i := i + 1;
    }
  }

  /** All pixels of the tile. */
  ghost function AllPixels(tile: Tile): set<Coord> {
    set x, y | 0 <= x < tile.width && 0 <= y < tile.height :: Coord(x, y)
  }

  /** Exactly the bytes of visited pixels hold the fill colour; all others are original. */
  ghost predicate Painted(tile: Tile, fill: Rgba, data: seq<Byte>, visited: set<Coord>)
    requires tile.width > 0
  {
    && |data| == |tile.data|
    && forall i :: 0 <= i < |data| ==>
         data[i] == (if PixelOfByte(tile.width, i) in visited then Channel(fill, i % 4) else tile.data[i])
  }

  /**
    The search state between iterations: visited pixels lie in the tile and
    are connected to the start, queued pixels are candidates, the start is
    visited or queued, and every target-coloured neighbour of a visited
    pixel is visited or queued.
   */
  ghost predicate Explored(tile: Tile, target: Rgba, start: Coord, visited: set<Coord>, queue: seq<Coord>)
    requires WellFormedTile(tile)
  {
    && visited <= AllPixels(tile)
    && (forall q :: q in visited ==> Connected(tile, target, start, q))
    && (forall i :: 0 <= i < |queue| ==> Candidate(tile, target, start, queue[i]))
    && (start in visited || start in queue)
    && (forall q, n :: q in visited && n in Neighbours(q) ==>
          n in visited || n in queue || GetPixelColor(tile, n.x, n.y) != Some(target))
  }

  /**
    A pixel the fill has not visited still holds its original colour in
    the working buffer.
   */
  lemma UnvisitedBytes(tile: Tile, fill: Rgba, data: seq<Byte>, visited: set<Coord>, p: Coord)
    requires WellFormedTile(tile) && tile.width > 0
    requires Painted(tile, fill, data, visited)
    requires InBounds(tile, p.x, p.y) && p !in visited
    ensures 0 <= PixelOffset(tile.width, p.x, p.y) && PixelOffset(tile.width, p.x, p.y) + 4 <= |data|
    ensures GetPixelColor(tile, p.x, p.y) == Some(ColourAt(data, PixelOffset(tile.width, p.x, p.y)))
  {
    var k := PixelOffset(tile.width, p.x, p.y);
    PixelBytes(tile, p.x, p.y);
    ByteOwner(tile, p.x, p.y, k);
    ByteOwner(tile, p.x, p.y, k + 1);
    ByteOwner(tile, p.x, p.y, k + 2);
    ByteOwner(tile, p.x, p.y, k + 3);
  }

  /** Writing the fill colour into pixel `p`'s bytes is marking `p` visited. */
  lemma PaintBytes(tile: Tile, fill: Rgba, data: seq<Byte>, visited: set<Coord>, p: Coord)
    requires WellFormedTile(tile) && tile.width > 0
    requires Painted(tile, fill, data, visited)
    requires InBounds(tile, p.x, p.y)
    ensures var k := PixelOffset(tile.width, p.x, p.y);
            0 <= k && k + 4 <= |data| &&
            Painted(tile, fill, WriteColor(data, k, fill), visited + {p})
  {
    var k := PixelOffset(tile.width, p.x, p.y);
    PixelOffsetInRange(tile, p.x, p.y);
    var d := WriteColor(data, k, fill);
    forall i | 0 <= i < |d|
      ensures d[i] == (if PixelOfByte(tile.width, i) in visited + {p} then Channel(fill, i % 4) else tile.data[i])
    {
      ByteOwner(tile, p.x, p.y, i);
    }
  }

  /** Dropping a visited or non-target pixel from the queue keeps the search state. */
  lemma SkipStep(tile: Tile, target: Rgba, start: Coord, visited: set<Coord>, queue: seq<Coord>)
    requires WellFormedTile(tile)
    requires GetPixelColor(tile, start.x, start.y) == Some(target)
    requires Explored(tile, target, start, visited, queue)
    requires |queue| > 0
    requires queue[0] in visited || GetPixelColor(tile, queue[0].x, queue[0].y) != Some(target)
    ensures Explored(tile, target, start, visited, queue[1..])
  {
    var p := queue[0];
    assert forall n :: n in queue ==> n == p || n in queue[1..];
    forall i | 0 <= i < |queue[1..]|
      ensures Candidate(tile, target, start, queue[1..][i])
    {
      assert queue[1..][i] == queue[i + 1];
    }
  }

  /** Marking a queued target pixel visited and enqueueing its neighbours keeps the search state. */
  lemma VisitStep(tile: Tile, target: Rgba, start: Coord, visited: set<Coord>, queue: seq<Coord>)
    requires WellFormedTile(tile)
    requires GetPixelColor(tile, start.x, start.y) == Some(target)
    requires Explored(tile, target, start, visited, queue)
    requires |queue| > 0 && queue[0] !in visited
    requires GetPixelColor(tile, queue[0].x, queue[0].y) == Some(target)
    ensures Explored(tile, target, start, visited + {queue[0]}, queue[1..] + Neighbours(queue[0]))
  {
    var p := queue[0];
    assert Candidate(tile, target, start, p);
    CandidateOfTargetIsConnected(tile, target, start, p);
    assert p in AllPixels(tile);
    VisitQueue(tile, target, start, queue);
    VisitClosed(tile, target, visited, queue);
  }

  lemma VisitQueue(tile: Tile, target: Rgba, start: Coord, queue: seq<Coord>)
    requires WellFormedTile(tile)
    requires |queue| > 0 && Connected(tile, target, start, queue[0])
    requires forall i :: 0 <= i < |queue| ==> Candidate(tile, target, start, queue[i])
    ensures var q' := queue[1..] + Neighbours(queue[0]);
            forall i :: 0 <= i < |q'| ==> Candidate(tile, target, start, q'[i])
  {
    var p := queue[0];
    var q' := queue[1..] + Neighbours(p);
    NeighboursAreCandidates(tile, target, start, p);
    forall i | 0 <= i < |q'|
      ensures Candidate(tile, target, start, q'[i])
    {
      if i < |queue| - 1 {
        assert q'[i] == queue[i + 1];
      } else {
        assert q'[i] in Neighbours(p);
      }
    }
  }

  lemma VisitClosed(tile: Tile, target: Rgba, visited: set<Coord>, queue: seq<Coord>)
    requires WellFormedTile(tile) && |queue| > 0
    requires forall q, n :: q in visited && n in Neighbours(q) ==>
               n in visited || n in queue || GetPixelColor(tile, n.x, n.y) != Some(target)
    ensures var p := queue[0];
            var q' := queue[1..] + Neighbours(p);
            forall q, n :: q in visited + {p} && n in Neighbours(q) ==>
              n in visited + {p} || n in q' || GetPixelColor(tile, n.x, n.y) != Some(target)
  {
    var p := queue[0];
    var q' := queue[1..] + Neighbours(p);
    assert forall n :: n in queue ==> n == p || n in q';
    assert forall n :: n in Neighbours(p) ==> n in q';
  }

  /** Once the queue is empty the painted bytes are exactly the connected region's. */
  lemma FillComplete(tile: Tile, target: Rgba, fill: Rgba, start: Coord,
                     data: seq<Byte>, visited: set<Coord>)
    requires WellFormedTile(tile) && InBounds(tile, start.x, start.y)
    requires GetPixelColor(tile, start.x, start.y) == Some(target) && target != fill
    requires Painted(tile, fill, data, visited) && Explored(tile, target, start, visited, [])
    ensures data == FloodFilled(tile, start.x, start.y, fill)
  {
    var spec := FloodFilled(tile, start.x, start.y, fill);
    forall i | 0 <= i < |data|
      ensures data[i] == spec[i]
    {
      var q := PixelOfByte(tile.width, i);
      if Connected(tile, target, start, q) {
        ClosedRegionContainsConnected(tile, target, start, visited, q);
      }
    }
  }

  /**
    Breadth-first 4-connected flood fill. A queue holds pixels to examine; a
    visited set blocks revisits; a dequeued pixel that is visited, outside
    the tile, or no longer of the target colour is skipped; otherwise it is
    painted, marked visited, and its four neighbours are enqueued.
   */
  method FloodFill(tile: Tile, startX: int, startY: int, fillColor: string) returns (result: seq<Byte>)
    requires WellFormedTile(tile) && IsHexColor(fillColor)
    ensures result == FloodFilled(tile, startX, startY, HexToRgba(fillColor))
  {
    if startX < 0 || startX >= tile.width || startY < 0 || startY >= tile.height {
      return tile.data;
    }
    var targetColor := GetPixelColor(tile, startX, startY).value;
    var fill := HexToRgba(fillColor);
    if targetColor == fill {
      return tile.data;
    }

    var start := Coord(startX, startY);
    var newData: seq<Byte> := tile.data;
    var visited: set<Coord> := {};
    var queue: seq<Coord> := [start];
    ghost var all := AllPixels(tile);

    while |queue| > 0
      invariant Painted(tile, fill, newData, visited)
      invariant Explored(tile, targetColor, start, visited, queue)
      decreases all - visited, |queue|
    {
      var p := queue[0];
      if p in visited {
        SkipStep(tile, targetColor, start, visited, queue);
        queue := queue[1..];
        continue;
      }
      if p.x < 0 || p.x >= tile.width || p.y < 0 || p.y >= tile.height {
        SkipStep(tile, targetColor, start, visited, queue);
        queue := queue[1..];
        continue;
      }

      var index := PixelOffset(tile.width, p.x, p.y);
      UnvisitedBytes(tile, fill, newData, visited, p);
      if ColourAt(newData, index) != targetColor {
        SkipStep(tile, targetColor, start, visited, queue);
        queue := queue[1..];
        continue;
      }

      PaintBytes(tile, fill, newData, visited, p);
      VisitStep(tile, targetColor, start, visited, queue);
      newData := WriteColor(newData, index, fill);
      assert p in all;
      visited := visited + {p};
      queue := queue[1..] + Neighbours(p);
    }

    FillComplete(tile, targetColor, fill, start, newData, visited);
    return newData;
  }

  /**
    Pixel view of the fill: inside the tile, a pixel connected to the start
    reads as the fill colour and any other pixel reads as before.
   */
  lemma FloodFilledPixels(tile: Tile, sx: int, sy: int, fill: Rgba, x: int, y: int)
    requires WellFormedTile(tile) && InBounds(tile, sx, sy) && InBounds(tile, x, y)
    requires GetPixelColor(tile, sx, sy).value != fill
    ensures var target := GetPixelColor(tile, sx, sy).value;
            var t := tile.(data := FloodFilled(tile, sx, sy, fill));
            WellFormedTile(t) &&
            GetPixelColor(t, x, y) ==
              Some(if Connected(tile, target, Coord(sx, sy), Coord(x, y)) then fill
                   else GetPixelColor(tile, x, y).value)
  {
    var target := GetPixelColor(tile, sx, sy).value;
    var d := FloodFilled(tile, sx, sy, fill);
    var k := PixelOffset(tile.width, x, y);
    var c := if Connected(tile, target, Coord(sx, sy), Coord(x, y)) then fill else GetPixelColor(tile, x, y).value;
    PixelBytes(tile.(data := d), x, y);
    FilledByte(tile, sx, sy, fill, x, y, 0);
    FilledByte(tile, sx, sy, fill, x, y, 1);
    FilledByte(tile, sx, sy, fill, x, y, 2);
    FilledByte(tile, sx, sy, fill, x, y, 3);
    assert d[k] == c.r && d[k + 1] == c.g && d[k + 2] == c.b && d[k + 3] == c.a;
  }

  lemma FilledByte(tile: Tile, sx: int, sy: int, fill: Rgba, x: int, y: int, n: int)
    requires WellFormedTile(tile) && InBounds(tile, sx, sy) && InBounds(tile, x, y)
    requires GetPixelColor(tile, sx, sy).value != fill
    requires 0 <= n < 4
    ensures var k := PixelOffset(tile.width, x, y);
            var target := GetPixelColor(tile, sx, sy).value;
            var c := if Connected(tile, target, Coord(sx, sy), Coord(x, y)) then fill else GetPixelColor(tile, x, y).value;
            0 <= k + n < |tile.data| && FloodFilled(tile, sx, sy, fill)[k + n] == Channel(c, n)
  {
    var k := PixelOffset(tile.width, x, y);
    PixelOffsetInRange(tile, x, y);
    ByteOwner(tile, x, y, k + n);
  }

  /** Filling again from the same start with the same colour changes nothing. */
  lemma FloodFillIdempotent(tile: Tile, sx: int, sy: int, fill: Rgba)
    requires WellFormedTile(tile)
    ensures var t := tile.(data := FloodFilled(tile, sx, sy, fill));
            WellFormedTile(t) && FloodFilled(t, sx, sy, fill) == t.data
  {
    if InBounds(tile, sx, sy) && GetPixelColor(tile, sx, sy).value != fill {
      var target := GetPixelColor(tile, sx, sy).value;
      assert IsRegionPath(tile, target, [Coord(sx, sy)]);
      FloodFilledPixels(tile, sx, sy, fill, sx, sy);
    }
  }
}
