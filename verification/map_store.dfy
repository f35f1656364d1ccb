/**
  The map store: the map being edited, the selected layer and the grid
  switch, with the transitions the editor calls. Transitions that are
  given a bad layer id, bad coordinates or data of the wrong length leave
  the state as it was.
 */
module MapStore {
  import opened Wrappers
  import opened Types
  import opened Seqs
  import opened MapUtils
  import MockData

  datatype MapState = MapState(tileMap: Map, selectedLayerId: int, showGrid: bool)

  /** The store's starting state: the default map, layer 0 selected, grid shown. */
  function InitialState(): (s: MapState)
    ensures s.tileMap == MockData.CreateDefaultMap() && s.selectedLayerId == 0 && s.showGrid
  {
    MapState(MockData.CreateDefaultMap(), 0, true)
  }

  /** The starting state's single layer has the map's size. */
  lemma InitialStateFits()
    ensures LayersFitMap(InitialState().tileMap)
  {
  }

  /** A layer whose data holds one entry per cell of its own size. */
  predicate LayerWellFormed(l: Layer) {
    l.width >= 0 && l.height >= 0 && |l.data| == l.width * l.height
  }

  /** Every layer has the map's size and one entry per cell. */
  predicate LayersFitMap(m: Map) {
    m.width >= 0 && m.height >= 0 &&
    forall i :: 0 <= i < |m.layers| ==>
      m.layers[i].width == m.width && m.layers[i].height == m.height && |m.layers[i].data| == m.width * m.height
  }

  /** The entry of cell `(x, y)` of a row-major grid of width `w`. */
  function Cell(data: seq<int>, w: int, x: int, y: int): int
    requires 0 <= TileCoordsToIndex(x, y, w) < |data|
  {
    data[TileCoordsToIndex(x, y, w)]
  }

  // ---------------------------------------------------------------------
  // Resizing

  /**
    The entry cell `(x, y)` takes when an `oldW × oldH` grid is resized: its
    old entry when the cell lies inside the old size, otherwise empty (-1).
   */
  function ResizedEntry(data: seq<int>, oldW: nat, oldH: nat, x: int, y: int): int
    requires |data| == oldW * oldH
  {
    if IsValidTileCoord(x, y, oldW, oldH) then
      ValidCoordIndexInRange(x, y, oldW, oldH);
      data[TileCoordsToIndex(x, y, oldW)]
    else -1
  }

  /** A `w × h` grid whose every cell holds its `ResizedEntry`. */
  function ResizeData(data: seq<int>, oldW: nat, oldH: nat, w: nat, h: nat): (d: seq<int>)
    requires |data| == oldW * oldH
    ensures |d| == w * h
    ensures forall x, y :: IsValidTileCoord(x, y, w, h) ==>
              0 <= TileCoordsToIndex(x, y, w) < |d| &&
              d[TileCoordsToIndex(x, y, w)] == ResizedEntry(data, oldW, oldH, x, y)
  {
    if w == 0 then []
    else
      var d := seq(w * h, i requires 0 <= i < w * h =>
                 var c := IndexToTileCoords(i, w);
                 ResizedEntry(data, oldW, oldH, c.x, c.y));
      ResizeDataCells(data, oldW, oldH, w, h, d);
      d
  }

  lemma ResizeDataCells(data: seq<int>, oldW: nat, oldH: nat, w: nat, h: nat, d: seq<int>)
    requires |data| == oldW * oldH && w > 0 && |d| == w * h
    requires forall i :: 0 <= i < w * h ==>
               d[i] == ResizedEntry(data, oldW, oldH, IndexToTileCoords(i, w).x, IndexToTileCoords(i, w).y)
    ensures forall x, y :: IsValidTileCoord(x, y, w, h) ==>
              0 <= TileCoordsToIndex(x, y, w) < |d| &&
              d[TileCoordsToIndex(x, y, w)] == ResizedEntry(data, oldW, oldH, x, y)
  {
    forall x, y | IsValidTileCoord(x, y, w, h)
      ensures 0 <= TileCoordsToIndex(x, y, w) < |d|
      ensures d[TileCoordsToIndex(x, y, w)] == ResizedEntry(data, oldW, oldH, x, y)
    {
      ValidCoordIndexInRange(x, y, w, h);
      IndexCoordsRoundTrip(x, y, w, h);
    }
  }

  /** Growing a grid and then shrinking it back to its old size restores it. */
  lemma GrowShrinkRestores(data: seq<int>, oldW: nat, oldH: nat, w: nat, h: nat)
    requires |data| == oldW * oldH && oldW <= w && oldH <= h
    ensures ResizeData(ResizeData(data, oldW, oldH, w, h), w, h, oldW, oldH) == data
  {
    var mid := ResizeData(data, oldW, oldH, w, h);
    var back := ResizeData(mid, w, h, oldW, oldH);
    forall i | 0 <= i < |data|
      ensures back[i] == data[i]
    {
      CoordsIndexRoundTrip(i, oldW, oldH);
      var c := IndexToTileCoords(i, oldW);
      assert IsValidTileCoord(c.x, c.y, oldW, oldH);
      assert IsValidTileCoord(c.x, c.y, w, h);
      assert back[TileCoordsToIndex(c.x, c.y, oldW)] == ResizedEntry(mid, w, h, c.x, c.y);
      assert mid[TileCoordsToIndex(c.x, c.y, w)] == ResizedEntry(data, oldW, oldH, c.x, c.y);
    }
  }

  function ResizeLayer(l: Layer, oldW: nat, oldH: nat, width: nat, height: nat): (l': Layer)
    requires |l.data| == oldW * oldH
    ensures l'.id == l.id && l'.name == l.name && l'.width == width && l'.height == height
    ensures l'.data == ResizeData(l.data, oldW, oldH, width, height)
  {
    l.(width := width, height := height, data := ResizeData(l.data, oldW, oldH, width, height))
  }

  /**
    Resize the map and every layer to `width × height`; each layer's cells
    take their `ResizedEntry`, so entries inside both the old and the new
    size are kept and the rest are empty. Layer order, ids and names, the
    map's version, tile size and tilesets, the selection and the grid switch
    are kept.
   */
  function ResizeMap(s: MapState, width: nat, height: nat): (r: MapState)
    requires LayersFitMap(s.tileMap)
    ensures r.tileMap.width == width && r.tileMap.height == height
    ensures r.tileMap.version == s.tileMap.version && r.tileMap.tilesets == s.tileMap.tilesets
    ensures r.tileMap.tilewidth == s.tileMap.tilewidth && r.tileMap.tileheight == s.tileMap.tileheight
    ensures |r.tileMap.layers| == |s.tileMap.layers|
    ensures forall i :: 0 <= i < |r.tileMap.layers| ==>
              r.tileMap.layers[i] == ResizeLayer(s.tileMap.layers[i], s.tileMap.width, s.tileMap.height, width, height)
    ensures LayersFitMap(r.tileMap)
    ensures r.selectedLayerId == s.selectedLayerId && r.showGrid == s.showGrid
  {
    var m := s.tileMap;
    var layers := seq(|m.layers|, i requires 0 <= i < |m.layers| =>
                    ResizeLayer(m.layers[i], m.width, m.height, width, height));
    s.(tileMap := m.(width := width, height := height, layers := layers))
  }

  /**
    Cell by cell: after a resize, a cell of layer `i` inside the new size
    holds its old entry when it also lies inside the old size, and is empty
    (-1) otherwise.
   */
  lemma ResizeMapCells(s: MapState, width: nat, height: nat, i: int, x: int, y: int)
    requires LayersFitMap(s.tileMap)
    requires 0 <= i < |s.tileMap.layers| && IsValidTileCoord(x, y, width, height)
    ensures var m, r := s.tileMap, ResizeMap(s, width, height).tileMap;
            0 <= TileCoordsToIndex(x, y, width) < |r.layers[i].data| &&
            (IsValidTileCoord(x, y, m.width, m.height) ==>
               0 <= TileCoordsToIndex(x, y, m.width) < |m.layers[i].data| &&
               r.layers[i].data[TileCoordsToIndex(x, y, width)] == m.layers[i].data[TileCoordsToIndex(x, y, m.width)]) &&
            (!IsValidTileCoord(x, y, m.width, m.height) ==>
               r.layers[i].data[TileCoordsToIndex(x, y, width)] == -1)
  {
    var m := s.tileMap;
    if IsValidTileCoord(x, y, m.width, m.height) {
      ValidCoordIndexInRange(x, y, m.width, m.height);
    }
  }

  /** Resizing a grid to its own size keeps every entry. */
  lemma ResizeDataSameSize(data: seq<int>, w: nat, h: nat)
    requires |data| == w * h
    ensures ResizeData(data, w, h, w, h) == data
  {
    var d := ResizeData(data, w, h, w, h);
    forall i | 0 <= i < |data|
      ensures d[i] == data[i]
    {
      CoordsIndexRoundTrip(i, w, h);
      var c := IndexToTileCoords(i, w);
      assert d[TileCoordsToIndex(c.x, c.y, w)] == ResizedEntry(data, w, h, c.x, c.y);
    }
  }

  /** Resizing the map to its current size changes nothing, when every layer has the map's size. */
  lemma ResizeSameSize(s: MapState)
    requires LayersFitMap(s.tileMap)
    ensures ResizeMap(s, s.tileMap.width, s.tileMap.height) == s
  {
    var m := s.tileMap;
    var r := ResizeMap(s, m.width, m.height);
    forall i | 0 <= i < |m.layers|
      ensures r.tileMap.layers[i] == m.layers[i]
    {
      ResizeDataSameSize(m.layers[i].data, m.width, m.height);
    }
    assert r.tileMap.layers == m.layers;
  }

  /** Growing the map and shrinking it back restores the state, when every layer has the map's size. */
  lemma ResizeGrowShrinkRestores(s: MapState, width: nat, height: nat)
    requires LayersFitMap(s.tileMap) && s.tileMap.width <= width && s.tileMap.height <= height
    ensures ResizeMap(ResizeMap(s, width, height), s.tileMap.width, s.tileMap.height) == s
  {
    var m := s.tileMap;
    var r := ResizeMap(ResizeMap(s, width, height), m.width, m.height);
    assert |r.tileMap.layers| == |m.layers|;
    forall i | 0 <= i < |m.layers|
      ensures r.tileMap.layers[i] == m.layers[i]
    {
      GrowShrinkRestores(m.layers[i].data, m.width, m.height, width, height);
    }
    assert r.tileMap.layers == m.layers;
  }

  // ---------------------------------------------------------------------
  // Layer writes

  function HasId(id: int): Layer -> bool {
    (l: Layer) => l.id == id
  }

  /** Every layer carrying `layerId` gets `data`; every other layer is kept. */
  function ReplaceLayerData(layers: seq<Layer>, layerId: int, data: seq<int>): (r: seq<Layer>)
    ensures |r| == |layers|
    ensures forall i :: 0 <= i < |r| ==>
              r[i] == if layers[i].id == layerId then layers[i].(data := data) else layers[i]
  {
    seq(|layers|, i requires 0 <= i < |layers| =>
      if layers[i].id == layerId then layers[i].(data := data) else layers[i])
  }

  /** Whether `k` is the first layer carrying `id`. */
  predicate FirstWithId(layers: seq<Layer>, id: int, k: int) {
    0 <= k < |layers| && layers[k].id == id && forall j :: 0 <= j < k ==> layers[j].id != id
  }

  /** The position of the first layer carrying `id`, if any: the layer `find` returns. */
  function FirstLayer(layers: seq<Layer>, id: int): (k: Option<nat>)
    ensures k.None? <==> forall i :: 0 <= i < |layers| ==> layers[i].id != id
    ensures k.Some? ==> FirstWithId(layers, id, k.value)
  {
    FindIndex(layers, HasId(id))
  }

  /** Only one position is the first to carry an id. */
  lemma FirstLayerIs(layers: seq<Layer>, id: int, k: int)
    requires FirstWithId(layers, id, k)
    ensures FirstLayer(layers, id) == Some(k)
  {
  }

  /**
    Replace the data of layer `layerId`. Nothing happens when no layer has
    that id or when `data` does not hold one entry per cell of the first
    layer with that id; otherwise every layer with that id takes `data`.
   */
  function SetLayerData(s: MapState, layerId: int, data: seq<int>): (r: MapState)
    ensures FirstLayer(s.tileMap.layers, layerId).None? ==> r == s
    ensures FirstLayer(s.tileMap.layers, layerId).Some? ==>
              var l := s.tileMap.layers[FirstLayer(s.tileMap.layers, layerId).value];
              (|data| != l.width * l.height ==> r == s) &&
              (|data| == l.width * l.height ==>
                 r == s.(tileMap := s.tileMap.(layers := ReplaceLayerData(s.tileMap.layers, layerId, data))))
  {
    match FirstLayer(s.tileMap.layers, layerId)
    case None => s
    case Some(k) =>
      var layer := s.tileMap.layers[k];
      if |data| != layer.width * layer.height then s
      else s.(tileMap := s.tileMap.(layers := ReplaceLayerData(s.tileMap.layers, layerId, data)))
  }

  /** When every layer has the map's size, writing a layer's data keeps that so. */
  lemma SetLayerDataKeepsFit(s: MapState, layerId: int, data: seq<int>)
    requires LayersFitMap(s.tileMap)
    ensures LayersFitMap(SetLayerData(s, layerId, data).tileMap)
  {
    var layers := s.tileMap.layers;
    match FirstLayer(layers, layerId)
    case None =>
    case Some(k) =>
      assert FirstWithId(layers, layerId, k);
  }

  /** A write of the right length reaches every layer with the id. */
  lemma SetLayerDataReadBack(s: MapState, layerId: int, data: seq<int>, i: int)
    requires 0 <= i < |s.tileMap.layers| && s.tileMap.layers[i].id == layerId
    requires LayersFitMap(s.tileMap) && |data| == s.tileMap.width * s.tileMap.height
    ensures SetLayerData(s, layerId, data).tileMap.layers[i].data == data
  {
    var layers := s.tileMap.layers;
    match FirstLayer(layers, layerId)
    case None =>
    case Some(k) =>
      assert FirstWithId(layers, layerId, k);
      assert |data| == layers[k].width * layers[k].height;
  }

  /** The layer's data with cell `(x, y)` set to `tileId`. */
  function WriteCell(l: Layer, x: int, y: int, tileId: int): (d: seq<int>)
    requires LayerWellFormed(l) && IsValidTileCoord(x, y, l.width, l.height)
    ensures |d| == |l.data| && 0 <= TileCoordsToIndex(x, y, l.width) < |d|
    ensures d[TileCoordsToIndex(x, y, l.width)] == tileId
    ensures forall j :: 0 <= j < |d| && j != TileCoordsToIndex(x, y, l.width) ==> d[j] == l.data[j]
  {
    ValidCoordIndexInRange(x, y, l.width, l.height);
    l.data[TileCoordsToIndex(x, y, l.width) := tileId]
  }

  /**
    Write `tileId` into cell `(x, y)` of layer `layerId`. Nothing happens when
    no layer has that id or the cell lies outside the first such layer;
    otherwise every layer with that id takes the first one's data with that
    cell changed.
   */
  function UpdateLayerData(s: MapState, layerId: int, x: int, y: int, tileId: int): (r: MapState)
    requires forall i :: 0 <= i < |s.tileMap.layers| ==> LayerWellFormed(s.tileMap.layers[i])
    ensures FirstLayer(s.tileMap.layers, layerId).None? ==> r == s
    ensures FirstLayer(s.tileMap.layers, layerId).Some? ==>
              var l := s.tileMap.layers[FirstLayer(s.tileMap.layers, layerId).value];
              (!IsValidTileCoord(x, y, l.width, l.height) ==> r == s) &&
              (IsValidTileCoord(x, y, l.width, l.height) ==>
                 r == s.(tileMap := s.tileMap.(layers := ReplaceLayerData(s.tileMap.layers, layerId,
                                                                          WriteCell(l, x, y, tileId)))))
  {
    match FirstLayer(s.tileMap.layers, layerId)
    case None => s
    case Some(k) =>
      var layer := s.tileMap.layers[k];
      if x < 0 || x >= layer.width || y < 0 || y >= layer.height then s
      else s.(tileMap := s.tileMap.(layers := ReplaceLayerData(s.tileMap.layers, layerId,
                                                               WriteCell(layer, x, y, tileId))))
  }

  /**
    With a single layer carrying the id, a cell write changes exactly that
    cell of that layer: every other cell and every other layer is kept.
   */
  lemma UpdateLayerDataCell(s: MapState, k: int, x: int, y: int, tileId: int)
    requires forall i :: 0 <= i < |s.tileMap.layers| ==> LayerWellFormed(s.tileMap.layers[i])
    requires 0 <= k < |s.tileMap.layers|
    requires forall j :: 0 <= j < |s.tileMap.layers| && j != k ==> s.tileMap.layers[j].id != s.tileMap.layers[k].id
    requires IsValidTileCoord(x, y, s.tileMap.layers[k].width, s.tileMap.layers[k].height)
    ensures var l := s.tileMap.layers[k];
            var r := UpdateLayerData(s, l.id, x, y, tileId).tileMap;
            |r.layers| == |s.tileMap.layers| &&
            (forall j :: 0 <= j < |r.layers| && j != k ==> r.layers[j] == s.tileMap.layers[j]) &&
            r.layers[k].width == l.width && r.layers[k].height == l.height &&
            |r.layers[k].data| == |l.data| &&
            0 <= TileCoordsToIndex(x, y, l.width) < |l.data| &&
            r.layers[k].data[TileCoordsToIndex(x, y, l.width)] == tileId &&
            (forall x2, y2 :: IsValidTileCoord(x2, y2, l.width, l.height) && (x2 != x || y2 != y) ==>
               0 <= TileCoordsToIndex(x2, y2, l.width) < |l.data| &&
               r.layers[k].data[TileCoordsToIndex(x2, y2, l.width)] == l.data[TileCoordsToIndex(x2, y2, l.width)])
  {
    var layers := s.tileMap.layers;
    var l := layers[k];
    FirstLayerIs(layers, l.id, k);
    var d := WriteCell(l, x, y, tileId);
    var r := UpdateLayerData(s, l.id, x, y, tileId).tileMap;
    assert r.layers == ReplaceLayerData(layers, l.id, d);
    forall x2, y2 | IsValidTileCoord(x2, y2, l.width, l.height) && (x2 != x || y2 != y)
      ensures 0 <= TileCoordsToIndex(x2, y2, l.width) < |l.data|
      ensures r.layers[k].data[TileCoordsToIndex(x2, y2, l.width)] == l.data[TileCoordsToIndex(x2, y2, l.width)]
    {
      ValidCoordIndexInRange(x2, y2, l.width, l.height);
      IndexInjective(x, y, x2, y2, l.width, l.height);
    }
  }

  /** Layers that fit the map are well-formed layers. */
  lemma FitLayersWellFormed(m: Map)
    requires LayersFitMap(m)
    ensures forall i :: 0 <= i < |m.layers| ==> LayerWellFormed(m.layers[i])
  {
  }

  /** When every layer has the map's size, a cell write keeps that so. */
  lemma UpdateLayerDataKeepsFit(s: MapState, layerId: int, x: int, y: int, tileId: int)
    requires LayersFitMap(s.tileMap)
    ensures forall i :: 0 <= i < |s.tileMap.layers| ==> LayerWellFormed(s.tileMap.layers[i])
    ensures LayersFitMap(UpdateLayerData(s, layerId, x, y, tileId).tileMap)
  {
    var layers := s.tileMap.layers;
    match FirstLayer(layers, layerId)
    case None =>
    case Some(k) =>
      assert FirstWithId(layers, layerId, k);
  }

  // ---------------------------------------------------------------------
  // Selection and grid

  /** Select layer `id` if some layer carries it; otherwise keep the selection. */
  function SelectLayer(s: MapState, id: int): (r: MapState)
    ensures (exists i :: 0 <= i < |s.tileMap.layers| && s.tileMap.layers[i].id == id) ==> r.selectedLayerId == id
    ensures (forall i :: 0 <= i < |s.tileMap.layers| ==> s.tileMap.layers[i].id != id) ==>
              r.selectedLayerId == s.selectedLayerId
    ensures r.tileMap == s.tileMap && r.showGrid == s.showGrid
  {
    if Any(s.tileMap.layers, HasId(id)) then s.(selectedLayerId := id) else s
  }

  /** A selection that names an existing layer stays one after any `SelectLayer`. */
  lemma SelectLayerKeepsValidSelection(s: MapState, id: int)
    requires exists i :: 0 <= i < |s.tileMap.layers| && s.tileMap.layers[i].id == s.selectedLayerId
    ensures var r := SelectLayer(s, id);
            exists i :: 0 <= i < |r.tileMap.layers| && r.tileMap.layers[i].id == r.selectedLayerId
  {
    var layers, r := s.tileMap.layers, SelectLayer(s, id);
    if exists i :: 0 <= i < |layers| && layers[i].id == id {
      var i :| 0 <= i < |layers| && layers[i].id == id;
      assert r.tileMap.layers[i].id == r.selectedLayerId;
    } else {
      var i :| 0 <= i < |layers| && layers[i].id == s.selectedLayerId;
      assert r.tileMap.layers[i].id == r.selectedLayerId;
    }
  }

  function ToggleGrid(s: MapState): (r: MapState)
    ensures r.showGrid == !s.showGrid && r.tileMap == s.tileMap && r.selectedLayerId == s.selectedLayerId
  {
    s.(showGrid := !s.showGrid)
  }

  lemma ToggleGridTwice(s: MapState)
    ensures ToggleGrid(ToggleGrid(s)) == s
  {
  }

  // ---------------------------------------------------------------------
  // Whole-map replacement

  /** Replace the map wholesale; the selection and grid switch are kept, unchecked. */
  function UpdateMap(s: MapState, m: Map): (r: MapState)
    ensures r.tileMap == m && r.selectedLayerId == s.selectedLayerId && r.showGrid == s.showGrid
  {
    s.(tileMap := m)
  }

  /** Back to the starting state, whatever came before. */
  function ResetMap(s: MapState): (r: MapState)
    ensures r == InitialState()
  {
    MapState(MockData.CreateDefaultMap(), 0, true)
  }

  /**
    After a reset the layers fit the map and the selection names a layer,
    whatever map was loaded before.
   */
  lemma ResetMapSound(s: MapState, m: Map)
    ensures var r := ResetMap(UpdateMap(s, m));
            LayersFitMap(r.tileMap) &&
            exists i :: 0 <= i < |r.tileMap.layers| && r.tileMap.layers[i].id == r.selectedLayerId
  {
    var r := ResetMap(UpdateMap(s, m));
    assert r.tileMap.layers[0].id == r.selectedLayerId;
  }
}
