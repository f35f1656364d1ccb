/**
  The map canvas's pointer handling: which cell a pointer event is over,
  whether it places the selected tile, erases, or only moves the hover
  marker, and when painting is active. The pointer position arrives already
  relative to the canvas.
 */
module MapCanvas {
  import opened Wrappers
  import opened Types
  import opened Seqs
  import opened MapUtils
  import opened MapStore
  import Viewport

  /**
    The canvas's view of the world: the map store, the tile store's
    selected tile, the viewport, the painting flag and the hovered cell.
   */
  datatype CanvasModel = CanvasModel(
    mapState: MapState,
    selectedTileId: Option<int>,
    view: Viewport.CanvasState,
    isPainting: bool,
    hoverTile: Option<Coord>)

  /**
    A pointer event: `button` is the button that changed (0 left, 2 right),
    `buttons` the bit set of buttons held (1 left, 2 right), and the position
    on the canvas.
   */
  datatype PointerEvent = PointerEvent(button: int, buttons: int, x: real, y: real)

  /** The map canvas opens at scale 1. */
  const MapCanvasScale: real := 1.0

  const EmptyCell: int := -1

  function InitialCanvas(ms: MapState, selectedTileId: Option<int>): (s: CanvasModel)
    ensures s.mapState == ms && s.selectedTileId == selectedTileId
    ensures s.view == Viewport.Init(MapCanvasScale) && !s.isPainting && s.hoverTile.None?
  {
    CanvasModel(ms, selectedTileId, Viewport.Init(MapCanvasScale), false, None)
  }

  /** What the handlers rely on: a positive scale and tile size, and layers of the map's size. */
  predicate CanvasReady(s: CanvasModel) {
    s.view.scale > 0.0 && s.mapState.tileMap.tilewidth > 0 && s.mapState.tileMap.tileheight > 0 &&
    LayersFitMap(s.mapState.tileMap)
  }

  /**
    Whether some layer carries the selected layer id. Without one the canvas
    shows a notice instead, so no pointer handler is attached.
   */
  predicate LayerSelected(ms: MapState) {
    exists i :: 0 <= i < |ms.tileMap.layers| && ms.tileMap.layers[i].id == ms.selectedLayerId
  }

  /** The map cell under the pointer. */
  function CellUnder(s: CanvasModel, e: PointerEvent): (c: Coord)
    requires CanvasReady(s)
    ensures var m, v := s.mapState.tileMap, s.view;
            CellContains(v.offsetX, v.scale * (m.tilewidth as real), c.x, e.x) &&
            CellContains(v.offsetY, v.scale * (m.tileheight as real), c.y, e.y)
  {
    var m := s.mapState.tileMap;
    ScreenToTileCoords(e.x, e.y, s.view.scale, s.view.offsetX, s.view.offsetY, m.tilewidth as real, m.tileheight as real)
  }

  /** Whether the cell under the pointer lies on the map. */
  predicate OnMap(s: CanvasModel, e: PointerEvent)
    requires CanvasReady(s)
  {
    var c, m := CellUnder(s, e), s.mapState.tileMap;
    IsValidTileCoord(c.x, c.y, m.width, m.height)
  }

  /** Write `tileId` at the cell under the pointer in the selected layer. */
  function Paint(s: CanvasModel, e: PointerEvent, tileId: int): (r: MapState)
    requires CanvasReady(s)
    ensures LayersFitMap(r.tileMap)
  {
    var c := CellUnder(s, e);
    FitLayersWellFormed(s.mapState.tileMap);
    UpdateLayerDataKeepsFit(s.mapState, s.mapState.selectedLayerId, c.x, c.y, tileId);
    UpdateLayerData(s.mapState, s.mapState.selectedLayerId, c.x, c.y, tileId)
  }

  /**
    Pointer down. Only the left and right buttons act, and only on a cell of
    the map; then painting starts, and the left button places the selected
    tile (if one is selected) while the right button erases the cell.
   */
  function PointerDown(s: CanvasModel, e: PointerEvent): (r: CanvasModel)
    requires CanvasReady(s)
    ensures !LayerSelected(s.mapState) || (e.button != 0 && e.button != 2) || !OnMap(s, e) ==> r == s
    ensures r.isPainting <==> s.isPainting || (LayerSelected(s.mapState) && (e.button == 0 || e.button == 2) && OnMap(s, e))
    ensures LayerSelected(s.mapState) && OnMap(s, e) && e.button == 0 && s.selectedTileId.Some? ==>
              r.mapState == Paint(s, e, s.selectedTileId.value)
    ensures LayerSelected(s.mapState) && OnMap(s, e) && e.button == 2 ==> r.mapState == Paint(s, e, EmptyCell)
    ensures e.button == 0 && s.selectedTileId.None? ==> r.mapState == s.mapState
    ensures r.view == s.view && r.hoverTile == s.hoverTile && r.selectedTileId == s.selectedTileId
    ensures CanvasReady(r)
  {
    if !Any(s.mapState.tileMap.layers, HasId(s.mapState.selectedLayerId)) then s
    else if e.button != 0 && e.button != 2 then s
    else
      var c, m := CellUnder(s, e), s.mapState.tileMap;
      if !IsValidTileCoord(c.x, c.y, m.width, m.height) then s
      else
        var painting := s.(isPainting := true);
        if e.button == 0 && s.selectedTileId.Some? then painting.(mapState := Paint(s, e, s.selectedTileId.value))
        else if e.button == 2 then painting.(mapState := Paint(s, e, EmptyCell))
        else painting
  }

  /**
    Pointer move. The hovered cell follows the pointer while it is on the
    map and is cleared off it. While painting on a cell of the map, holding
    only the left button places the selected tile (if any) and holding only
    the right button erases.
   */
  function PointerMove(s: CanvasModel, e: PointerEvent): (r: CanvasModel)
    requires CanvasReady(s)
    ensures !LayerSelected(s.mapState) ==> r == s
    ensures LayerSelected(s.mapState) ==>
              (r.hoverTile.Some? <==> OnMap(s, e)) && (r.hoverTile.Some? ==> r.hoverTile.value == CellUnder(s, e))
    ensures !s.isPainting || !OnMap(s, e) ==> r.mapState == s.mapState
    ensures LayerSelected(s.mapState) && s.isPainting && OnMap(s, e) && e.buttons == 1 && s.selectedTileId.Some? ==>
              r.mapState == Paint(s, e, s.selectedTileId.value)
    ensures LayerSelected(s.mapState) && s.isPainting && OnMap(s, e) && e.buttons == 2 ==>
              r.mapState == Paint(s, e, EmptyCell)
    ensures e.buttons != 1 && e.buttons != 2 ==> r.mapState == s.mapState
    ensures r.isPainting == s.isPainting && r.view == s.view && r.selectedTileId == s.selectedTileId
    ensures CanvasReady(r)
  {
    if !Any(s.mapState.tileMap.layers, HasId(s.mapState.selectedLayerId)) then s
    else
      var c, m := CellUnder(s, e), s.mapState.tileMap;
      var valid := IsValidTileCoord(c.x, c.y, m.width, m.height);
      var hovered := s.(hoverTile := if valid then Some(c) else None);
      if s.isPainting && valid then
        if e.buttons == 1 && s.selectedTileId.Some? then hovered.(mapState := Paint(s, e, s.selectedTileId.value))
        else if e.buttons == 2 then hovered.(mapState := Paint(s, e, EmptyCell))
        else hovered
      else hovered
  }

  /** Pointer up, and leaving the canvas, end painting. */
  function PointerUp(s: CanvasModel): (r: CanvasModel)
    ensures !LayerSelected(s.mapState) ==> r == s
    ensures LayerSelected(s.mapState) ==> !r.isPainting && r.(isPainting := s.isPainting) == s
  {
    if !Any(s.mapState.tileMap.layers, HasId(s.mapState.selectedLayerId)) then s
    else s.(isPainting := false)
  }

  /** Once painting has ended, moving the pointer never changes the map. */
  lemma NoPaintAfterUp(s: CanvasModel, e: PointerEvent)
    requires CanvasReady(s)
    ensures PointerMove(PointerUp(s), e).mapState == s.mapState
  {
  }

  /**
    With layer ids unique, a left click on a cell of the map with a tile
    selected puts that tile in the cell of the selected layer, and a right
    click empties it; no other cell or layer changes.
   */
  lemma ClickWritesCell(s: CanvasModel, e: PointerEvent, k: int)
    requires CanvasReady(s) && OnMap(s, e)
    requires 0 <= k < |s.mapState.tileMap.layers| && s.mapState.tileMap.layers[k].id == s.mapState.selectedLayerId
    requires forall j :: 0 <= j < |s.mapState.tileMap.layers| && j != k ==>
               s.mapState.tileMap.layers[j].id != s.mapState.selectedLayerId
    requires e.button == 2 || (e.button == 0 && s.selectedTileId.Some?)
    ensures var m, c := s.mapState.tileMap, CellUnder(s, e);
            var r := PointerDown(s, e).mapState.tileMap;
            var written := if e.button == 2 then EmptyCell else s.selectedTileId.value;
            |r.layers| == |m.layers| &&
            (forall j :: 0 <= j < |m.layers| && j != k ==> r.layers[j] == m.layers[j]) &&
            0 <= TileCoordsToIndex(c.x, c.y, m.width) < |r.layers[k].data| &&
            r.layers[k].data[TileCoordsToIndex(c.x, c.y, m.width)] == written &&
            (forall x2, y2 :: IsValidTileCoord(x2, y2, m.width, m.height) && (x2 != c.x || y2 != c.y) ==>
               0 <= TileCoordsToIndex(x2, y2, m.width) < |m.layers[k].data| &&
               r.layers[k].data[TileCoordsToIndex(x2, y2, m.width)] == m.layers[k].data[TileCoordsToIndex(x2, y2, m.width)])
  {
    var c := CellUnder(s, e);
    var written := if e.button == 2 then EmptyCell else s.selectedTileId.value;
    FitLayersWellFormed(s.mapState.tileMap);
    UpdateLayerDataCell(s.mapState, k, c.x, c.y, written);
  }
}
