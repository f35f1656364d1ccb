/**
  The pixel editor's pointer handling: which tool operation a pointer event
  runs on the selected tile, with which colour, and when drawing is active.
  The pointer position arrives already relative to the canvas.
 */
module TileEditor {
  import opened Wrappers
  import opened Types
  import opened Seqs
  import opened MapUtils
  import opened TileUtils
  import opened ToolHandlers
  import opened TilesStore
  import Viewport

  datatype EditorState = EditorState(store: TilesState, view: Viewport.CanvasState, isDrawing: bool)

  /** A pointer event: the button (0 left, 2 right) and the position on the canvas. */
  datatype PointerEvent = PointerEvent(button: int, x: real, y: real)

  /** The editor opens zoomed in to 4 with nothing being drawn. */
  const EditorScale: real := 4.0

  function InitialEditor(store: TilesState): (s: EditorState)
    ensures s.store == store && s.view == Viewport.Init(EditorScale) && !s.isDrawing
  {
    EditorState(store, Viewport.Init(EditorScale), false)
  }

  /** What the handlers rely on: a positive scale, well-formed tiles and hex colours. */
  predicate EditorReady(s: EditorState) {
    s.view.scale > 0.0 && TilesWellFormed(s.store.tiles) && ColorsWellFormed(s.store)
  }

  lemma InitialEditorReady(store: TilesState)
    requires TilesWellFormed(store.tiles) && ColorsWellFormed(store)
    ensures EditorReady(InitialEditor(store))
  {
  }

  /** Position of the selected tile: the first tile carrying the selected id. */
  function Selected(store: TilesState): (k: Option<nat>)
    ensures store.selectedTileId.None? ==> k.None?
    ensures store.selectedTileId.Some? && k.None? ==>
              forall i :: 0 <= i < |store.tiles| ==> store.tiles[i].id != store.selectedTileId.value
    ensures k.Some? ==> store.selectedTileId.Some? && FirstWithId(store.tiles, store.selectedTileId.value, k.value)
  {
    match store.selectedTileId
    case None => None
    case Some(id) => FindIndex(store.tiles, CarriesId(id))
  }

  /** The pixel under the pointer. */
  function PixelUnder(view: Viewport.CanvasState, e: PointerEvent): (c: Coord)
    requires view.scale > 0.0
    ensures CellContains(view.offsetX, view.scale, c.x, e.x) && CellContains(view.offsetY, view.scale, c.y, e.y)
  {
    ScreenToPixel(e.x, e.y, view.scale, view.offsetX, view.offsetY)
  }

  /** The right button draws with the secondary colour, every other button with the primary. */
  function DownColor(store: TilesState, button: int): (c: string)
    ensures button == 2 ==> c == store.secondaryColor
    ensures button != 2 ==> c == store.primaryColor
  {
    if button == 2 then store.secondaryColor else store.primaryColor
  }

  /** A pixel write that keeps the tile's length keeps the store's invariants when ids are unique. */
  lemma WriteKeepsWellFormed(store: TilesState, k: int, d: seq<Byte>)
    requires TilesWellFormed(store.tiles) && ColorsWellFormed(store) && UniqueIds(store.tiles)
    requires 0 <= k < |store.tiles| && |d| == |store.tiles[k].data|
    ensures var r := UpdateTilePixels(store, store.tiles[k].id, d);
            TilesWellFormed(r.tiles) && ColorsWellFormed(r) && UniqueIds(r.tiles)
  {
    UpdateTilePixelsKeepsWellFormed(store, store.tiles[k].id, d);
  }

  /**
    The current tool acting at in-bounds pixel `(x, y)` of tile `k` with the
    button's colour: pencil, eraser and fill store their new buffer on the
    tile's id; the picker stores the pixel's colour as the secondary colour
    (right button) or primary colour (otherwise) and leaves the pixels alone.
   */
  method ApplyTool(store: TilesState, k: nat, x: int, y: int, button: int) returns (r: TilesState)
    requires TilesWellFormed(store.tiles) && ColorsWellFormed(store)
    requires k < |store.tiles| && InBounds(store.tiles[k], x, y)
    ensures var tile, color := store.tiles[k], DownColor(store, button);
      |r.tiles| == |store.tiles| &&
      (store.currentTool == Pencil ==>
         r == UpdateTilePixels(store, tile.id, DrawPixel(tile, x, y, color)) &&
         GetPixelColor(r.tiles[k], x, y) == Some(HexToRgba(color)) &&
         OthersUnchanged(tile, r.tiles[k].data, x, y)) &&
      (store.currentTool == Eraser ==>
         r == UpdateTilePixels(store, tile.id, ErasePixel(tile, x, y)) &&
         GetPixelColor(r.tiles[k], x, y) == Some(Rgba(0, 0, 0, 0)) &&
         OthersUnchanged(tile, r.tiles[k].data, x, y)) &&
      (store.currentTool == Fill ==>
         r == UpdateTilePixels(store, tile.id, FloodFilled(tile, x, y, HexToRgba(color)))) &&
      (store.currentTool == Picker ==>
         r.tiles == store.tiles &&
         var picked := PickColor(tile, x, y).value;
         (button == 2 ==> r == SetSecondaryColor(store, picked)) &&
         (button != 2 ==> r == SetPrimaryColor(store, picked)))
    ensures UniqueIds(store.tiles) ==>
              TilesWellFormed(r.tiles) && ColorsWellFormed(r) && UniqueIds(r.tiles)
  {
    var tile := store.tiles[k];
    var useSecondary := button == 2;
    var color := if useSecondary then store.secondaryColor else store.primaryColor;
    r := store;
    match store.currentTool {
      case Pencil =>
        var d := DrawPixel(tile, x, y, color);
        r := UpdateTilePixels(store, tile.id, d);
        assert r.tiles[k] == tile.(data := d);
        if UniqueIds(store.tiles) { WriteKeepsWellFormed(store, k, d); }
      case Eraser =>
        var d := ErasePixel(tile, x, y);
        r := UpdateTilePixels(store, tile.id, d);
        assert r.tiles[k] == tile.(data := d);
        if UniqueIds(store.tiles) { WriteKeepsWellFormed(store, k, d); }
      case Fill =>
        var d := FloodFill(tile, x, y, color);
        r := UpdateTilePixels(store, tile.id, d);
        if UniqueIds(store.tiles) { WriteKeepsWellFormed(store, k, d); }
      case Picker =>
        var picked := PickColor(tile, x, y);
        if picked.Some? {
          r := if useSecondary then SetSecondaryColor(store, picked.value) else SetPrimaryColor(store, picked.value);
        }
    }
  }

  /**
    Pointer down. With no selected tile, or outside the tile, nothing
    happens. Otherwise drawing starts and the current tool acts at the
    pixel, as `ApplyTool` states; the viewport is kept.
   */
  method PointerDown(s: EditorState, e: PointerEvent) returns (r: EditorState)
    requires EditorReady(s)
    ensures Selected(s.store).None? ==> r == s
    ensures Selected(s.store).Some? ==>
      var tile, p := s.store.tiles[Selected(s.store).value], PixelUnder(s.view, e);
      (!InBounds(tile, p.x, p.y) ==> r == s) &&
      (InBounds(tile, p.x, p.y) ==> r.isDrawing && r.view == s.view)
    ensures Selected(s.store).Some? && s.store.currentTool == Pencil ==>
      var k := Selected(s.store).value;
      var tile, p := s.store.tiles[k], PixelUnder(s.view, e);
      InBounds(tile, p.x, p.y) ==>
        r.store == UpdateTilePixels(s.store, tile.id, DrawPixel(tile, p.x, p.y, DownColor(s.store, e.button))) &&
        GetPixelColor(r.store.tiles[k], p.x, p.y) == Some(HexToRgba(DownColor(s.store, e.button)))
    ensures Selected(s.store).Some? && s.store.currentTool == Eraser ==>
      var k := Selected(s.store).value;
      var tile, p := s.store.tiles[k], PixelUnder(s.view, e);
      InBounds(tile, p.x, p.y) ==>
        r.store == UpdateTilePixels(s.store, tile.id, ErasePixel(tile, p.x, p.y)) &&
        GetPixelColor(r.store.tiles[k], p.x, p.y) == Some(Rgba(0, 0, 0, 0))
    ensures Selected(s.store).Some? && s.store.currentTool == Fill ==>
      var tile, p := s.store.tiles[Selected(s.store).value], PixelUnder(s.view, e);
      InBounds(tile, p.x, p.y) ==>
        r.store == UpdateTilePixels(s.store, tile.id, FloodFilled(tile, p.x, p.y, HexToRgba(DownColor(s.store, e.button))))
    ensures Selected(s.store).Some? && s.store.currentTool == Picker ==>
      var tile, p := s.store.tiles[Selected(s.store).value], PixelUnder(s.view, e);
      InBounds(tile, p.x, p.y) ==>
        r.store.tiles == s.store.tiles &&
        r.store == (if e.button == 2 then SetSecondaryColor(s.store, PickColor(tile, p.x, p.y).value)
                    else SetPrimaryColor(s.store, PickColor(tile, p.x, p.y).value))
    ensures UniqueIds(s.store.tiles) ==> EditorReady(r) && UniqueIds(r.store.tiles)
  {
    var sel := Selected(s.store);
    if sel.None? {
      return s;
    }
    var k := sel.value;
    var tile := s.store.tiles[k];
    var p := PixelUnder(s.view, e);
    if p.x < 0 || p.x >= tile.width || p.y < 0 || p.y >= tile.height {
      return s;
    }
    var store := ApplyTool(s.store, k, p.x, p.y, e.button);
    r := s.(store := store, isDrawing := true);
  }

  /**
    Pointer move. Only while drawing, on a pixel of the selected tile, and
    only for the pencil (always with the primary colour) and the eraser;
    the fill and the picker do nothing on a move.
   */
  function PointerMove(s: EditorState, e: PointerEvent): (r: EditorState)
    requires EditorReady(s)
    ensures r.isDrawing == s.isDrawing && r.view == s.view
    ensures !s.isDrawing || Selected(s.store).None? ==> r == s
    ensures s.store.currentTool == Fill || s.store.currentTool == Picker ==> r == s
    ensures s.isDrawing && Selected(s.store).Some? ==>
      var k := Selected(s.store).value;
      var tile, p := s.store.tiles[k], PixelUnder(s.view, e);
      (!InBounds(tile, p.x, p.y) ==> r == s) &&
      (InBounds(tile, p.x, p.y) && s.store.currentTool == Pencil ==>
         r.store == UpdateTilePixels(s.store, tile.id, DrawPixel(tile, p.x, p.y, s.store.primaryColor))) &&
      (InBounds(tile, p.x, p.y) && s.store.currentTool == Eraser ==>
         r.store == UpdateTilePixels(s.store, tile.id, ErasePixel(tile, p.x, p.y)))
  {
    if !s.isDrawing then s
    else match Selected(s.store)
      case None => s
      case Some(k) =>
        var tile := s.store.tiles[k];
        var p := PixelUnder(s.view, e);
        if p.x < 0 || p.x >= tile.width || p.y < 0 || p.y >= tile.height then s
        else match s.store.currentTool
          case Pencil => s.(store := UpdateTilePixels(s.store, tile.id, DrawPixel(tile, p.x, p.y, s.store.primaryColor)))
          case Eraser => s.(store := UpdateTilePixels(s.store, tile.id, ErasePixel(tile, p.x, p.y)))
          case _ => s
  }

  /** A move draws the same whichever button is held: only the position matters. */
  lemma MoveIgnoresButton(s: EditorState, e1: PointerEvent, e2: PointerEvent)
    requires EditorReady(s) && e1.x == e2.x && e1.y == e2.y
    ensures PointerMove(s, e1) == PointerMove(s, e2)
  {
  }

  /** Moves keep the store's invariants when ids are unique. */
  lemma MoveKeepsReady(s: EditorState, e: PointerEvent)
    requires EditorReady(s) && UniqueIds(s.store.tiles)
    ensures EditorReady(PointerMove(s, e)) && UniqueIds(PointerMove(s, e).store.tiles)
  {
    if s.isDrawing && Selected(s.store).Some? {
      var k := Selected(s.store).value;
      var tile, p := s.store.tiles[k], PixelUnder(s.view, e);
      if InBounds(tile, p.x, p.y) {
        match s.store.currentTool
        case Pencil => WriteKeepsWellFormed(s.store, k, DrawPixel(tile, p.x, p.y, s.store.primaryColor));
        case Eraser => WriteKeepsWellFormed(s.store, k, ErasePixel(tile, p.x, p.y));
        case _ =>
      }
    }
  }

  /**
    Pointer up, and leaving the canvas, end drawing. Without a selected tile
    the editor shows a notice instead of the canvas, so nothing happens.
   */
  function PointerUp(s: EditorState): (r: EditorState)
    ensures Selected(s.store).None? ==> r == s
    ensures Selected(s.store).Some? ==> !r.isDrawing && r.store == s.store && r.view == s.view
  {
    if Selected(s.store).None? then s else s.(isDrawing := false)
  }

  /** Once drawing has ended, moving the pointer changes nothing. */
  lemma NoDrawingAfterUp(s: EditorState, e: PointerEvent)
    requires EditorReady(s)
    ensures PointerMove(PointerUp(s), e) == PointerUp(s)
  {
  }
}
