/**
  The tile store: the tile collection being edited, the selected tile, the
  current tool, the two drawing colours, the 32-entry colour palette and
  the grid switch, with the transitions the editor calls.
 */
module TilesStore {
  import opened Wrappers
  import opened Types
  import opened Seqs
  import opened TileUtils
  import MockData

  datatype TilesState = TilesState(
    tiles: seq<Tile>,
    selectedTileId: Option<int>,
    currentTool: Tool,
    primaryColor: string,
    secondaryColor: string,
    colorPalette: seq<string>,
    showGrid: bool)

  /** Common pixel-art colours, as the palette starts. */
  const DefaultColorPalette: seq<string> := [
    "#000000FF", "#FFFFFF", "#FF0000", "#00FF00", "#0000FF", "#FFFF00", "#FF00FF", "#00FFFF",
    "#808080", "#800000", "#008000", "#000080", "#808000", "#800080", "#008080", "#C0C0C0",
    "#FF8080", "#80FF80", "#8080FF", "#FFFF80", "#FF80FF", "#80FFFF", "#FFC0C0", "#C0FFC0",
    "#C0C0FF", "#FFFFC0", "#FFC0FF", "#C0FFFF", "#FFA500", "#A52A2A", "#FF1493", "#00CED1"
  ]

  const DefaultPrimaryColor: string := "#000000FF"
  const DefaultSecondaryColor: string := "#FFFFFFFF"

  /**
    The store's starting state: the default tileset's tiles with the first
    one selected, the pencil, black on white and the default palette.
   */
  function InitialState(): (s: TilesState)
    ensures s.tiles == MockData.CreateDefaultTileset().tiles && s.selectedTileId == Some(s.tiles[0].id)
    ensures s.currentTool == Pencil && s.showGrid
    ensures s.primaryColor == DefaultPrimaryColor && s.secondaryColor == DefaultSecondaryColor
    ensures s.colorPalette == DefaultColorPalette && |s.colorPalette| == 32
  {
    var tiles := MockData.CreateDefaultTileset().tiles;
    TilesState(tiles, if |tiles| > 0 then Some(tiles[0].id) else None, Pencil,
               DefaultPrimaryColor, DefaultSecondaryColor, DefaultColorPalette, true)
  }

  // ---------------------------------------------------------------------
  // Invariants the transitions keep

  /** The selection, when there is one, names a tile of the collection. */
  predicate SelectionValid(s: TilesState) {
    s.selectedTileId.Some? ==> exists i :: 0 <= i < |s.tiles| && s.tiles[i].id == s.selectedTileId.value
  }

  predicate TilesWellFormed(tiles: seq<Tile>) {
    forall i :: 0 <= i < |tiles| ==> WellFormedTile(tiles[i])
  }

  /** No two tiles share an id. */
  predicate UniqueIds(tiles: seq<Tile>) {
    forall i, j :: 0 <= i < j < |tiles| ==> tiles[i].id != tiles[j].id
  }

  predicate ColorsWellFormed(s: TilesState) {
    IsHexColor(s.primaryColor) && IsHexColor(s.secondaryColor)
  }

  /** `#` and six or eight hex digits decode. */
  lemma HashedDigitsDecode(h: string)
    requires (|h| == 7 || |h| == 9) && h[0] == '#'
    requires forall i :: 1 <= i < |h| ==> IsHexDigit(h[i])
    ensures IsHexColor(h)
  {
    assert StripHash(h) == h[1..];
  }

  /** Every colour the palette starts with decodes, so any of them can be picked to draw with. */
  lemma DefaultPaletteDecodes()
    ensures forall i :: 0 <= i < |DefaultColorPalette| ==> IsHexColor(DefaultColorPalette[i])
  {
    forall i | 0 <= i < |DefaultColorPalette|
      ensures IsHexColor(DefaultColorPalette[i])
    {
      HashedDigitsDecode(DefaultColorPalette[i]);
    }
  }

  lemma InitialStateSound()
    ensures SelectionValid(InitialState()) && TilesWellFormed(InitialState().tiles)
    ensures ColorsWellFormed(InitialState())
  {
    var s := InitialState();
    assert StripHash(s.primaryColor) == "000000FF";
    assert StripHash(s.secondaryColor) == "FFFFFFFF";
  }

  // ---------------------------------------------------------------------
  // Fresh ids

  function MaxOf(a: int, b: int): int { if a >= b then a else b }

  /** The largest tile id, or -1 when there is none larger. */
  function MaxId(tiles: seq<Tile>): (m: int)
    ensures m >= -1
    ensures forall i :: 0 <= i < |tiles| ==> tiles[i].id <= m
    ensures m == -1 || exists i :: 0 <= i < |tiles| && tiles[i].id == m
  {
    if |tiles| == 0 then -1
    else
      var rest := MaxId(tiles[1..]);
      assert forall i :: 1 <= i < |tiles| ==> tiles[i] == tiles[1..][i - 1];
      MaxOf(tiles[0].id, rest)
  }

  /** One more than the largest id: an id no tile of the collection carries. */
  function NextId(tiles: seq<Tile>): (id: int)
    ensures id >= 0
    ensures forall i :: 0 <= i < |tiles| ==> tiles[i].id < id
  {
    MaxId(tiles) + 1
  }

  // ---------------------------------------------------------------------
  // Adding and deleting

  /** Append `tile` and select it. */
  function AddTile(s: TilesState, tile: Tile): (r: TilesState)
    ensures |r.tiles| == |s.tiles| + 1 && r.tiles[..|s.tiles|] == s.tiles && r.tiles[|s.tiles|] == tile
    ensures r.selectedTileId == Some(tile.id)
    ensures r.(tiles := s.tiles, selectedTileId := s.selectedTileId) == s
  {
    s.(tiles := s.tiles + [tile], selectedTileId := Some(tile.id))
  }

  /** `[t]` when `t` does not carry `id`, else nothing. */
  function Keep(t: Tile, id: int): seq<Tile> {
    if t.id == id then [] else [t]
  }

  /** The tiles that do not carry `id`, in their original order. */
  function RemoveId(tiles: seq<Tile>, id: int): (r: seq<Tile>)
    ensures |r| <= |tiles|
  {
    if |tiles| == 0 then []
    else Keep(tiles[0], id) + RemoveId(tiles[1..], id)
  }

  /** A tile survives removal exactly when it was there and does not carry the id. */
  lemma {:induction false} RemoveIdMembers(tiles: seq<Tile>, id: int)
    ensures forall t :: t in RemoveId(tiles, id) <==> t in tiles && t.id != id
    decreases |tiles|
  {
    if |tiles| > 0 {
      RemoveIdMembers(tiles[1..], id);
      assert tiles == [tiles[0]] + tiles[1..];
    }
  }

  /** Removal works piecewise, so the kept tiles keep their relative order. */
  lemma {:induction false} RemoveIdAppend(a: seq<Tile>, b: seq<Tile>, id: int)
    ensures RemoveId(a + b, id) == RemoveId(a, id) + RemoveId(b, id)
    decreases |a|
  {
    if |a| > 0 {
      calc {
        RemoveId(a + b, id);
        == { assert (a + b)[0] == a[0]; assert (a + b)[1..] == a[1..] + b; }
        Keep(a[0], id) + RemoveId(a[1..] + b, id);
        == { RemoveIdAppend(a[1..], b, id); }
        Keep(a[0], id) + (RemoveId(a[1..], id) + RemoveId(b, id));
        == // concatenation is associative
        (Keep(a[0], id) + RemoveId(a[1..], id)) + RemoveId(b, id);
      }
    } else {
      assert a + b == b;
    }
  }

  /** Removing an id no tile carries keeps the collection as it is. */
  lemma {:induction false} RemoveAbsentId(tiles: seq<Tile>, id: int)
    requires forall i :: 0 <= i < |tiles| ==> tiles[i].id != id
    ensures RemoveId(tiles, id) == tiles
    decreases |tiles|
  {
    if |tiles| > 0 {
      RemoveAbsentId(tiles[1..], id);
      assert [tiles[0]] + tiles[1..] == tiles;
    }
  }

  /**
    Remove every tile carrying `id`. When the deleted id was selected, the
    first remaining tile becomes selected, or nothing if none remains;
    otherwise the selection is kept.
   */
  function DeleteTile(s: TilesState, id: int): (r: TilesState)
    ensures r.tiles == RemoveId(s.tiles, id)
    ensures s.selectedTileId == Some(id) && |r.tiles| > 0 ==> r.selectedTileId == Some(r.tiles[0].id)
    ensures s.selectedTileId == Some(id) && |r.tiles| == 0 ==> r.selectedTileId.None?
    ensures s.selectedTileId != Some(id) ==> r.selectedTileId == s.selectedTileId
    ensures r.(tiles := s.tiles, selectedTileId := s.selectedTileId) == s
  {
    var newTiles := RemoveId(s.tiles, id);
    var newSelectedId :=
      if s.selectedTileId == Some(id) then
        (if |newTiles| > 0 then Some(newTiles[0].id) else None)
      else s.selectedTileId;
    s.(tiles := newTiles, selectedTileId := newSelectedId)
  }

  /** Deleting keeps the selection pointing at a tile that exists. */
  lemma DeleteKeepsSelectionValid(s: TilesState, id: int)
    requires SelectionValid(s)
    ensures SelectionValid(DeleteTile(s, id))
  {
    var r := DeleteTile(s, id);
    RemoveIdMembers(s.tiles, id);
    if s.selectedTileId.Some? && s.selectedTileId != Some(id) {
      var i :| 0 <= i < |s.tiles| && s.tiles[i].id == s.selectedTileId.value;
      assert s.tiles[i] in r.tiles;
    } else if r.selectedTileId.Some? {
      assert r.tiles[0].id == r.selectedTileId.value;
    }
  }

  /** Adding a tile with a fresh id and deleting that id gives back the collection. */
  lemma AddThenDelete(s: TilesState, tile: Tile)
    requires forall i :: 0 <= i < |s.tiles| ==> s.tiles[i].id != tile.id
    ensures DeleteTile(AddTile(s, tile), tile.id).tiles == s.tiles
  {
    RemoveIdAppend(s.tiles, [tile], tile.id);
    RemoveAbsentId(s.tiles, tile.id);
    assert RemoveId([tile], tile.id) == Keep(tile, tile.id) + RemoveId([], tile.id);
  }

  // ---------------------------------------------------------------------
  // Duplicating

  function CarriesId(id: int): Tile -> bool {
    (t: Tile) => t.id == id
  }

  /** Whether `k` is the first tile carrying `id`. */
  predicate FirstWithId(tiles: seq<Tile>, id: int, k: int) {
    0 <= k < |tiles| && tiles[k].id == id && forall j :: 0 <= j < k ==> tiles[j].id != id
  }

  /** A copy's name: the original's with " (copy)" added; a missing or empty name gives none. */
  function CopyName(name: Option<string>): (r: Option<string>)
    ensures r.Some? <==> name.Some? && name.value != ""
    ensures r.Some? ==> r.value == name.value + " (copy)"
  {
    if name.Some? && name.value != "" then Some(name.value + " (copy)") else None
  }

  /**
    Append a copy of the first tile carrying `id` under a fresh id and select
    it; an unknown id leaves the state unchanged.
   */
  function DuplicateTile(s: TilesState, id: int): (r: TilesState)
    ensures (forall i :: 0 <= i < |s.tiles| ==> s.tiles[i].id != id) ==> r == s
    ensures forall k :: FirstWithId(s.tiles, id, k) ==>
              var src := s.tiles[k];
              |r.tiles| == |s.tiles| + 1 && r.tiles[..|s.tiles|] == s.tiles &&
              var c := r.tiles[|s.tiles|];
              c.id == NextId(s.tiles) && (forall i :: 0 <= i < |s.tiles| ==> s.tiles[i].id != c.id) &&
              c.data == src.data && c.width == src.width && c.height == src.height &&
              c.tags == src.tags && c.name == CopyName(src.name) &&
              r.selectedTileId == Some(c.id) &&
              r.(tiles := s.tiles, selectedTileId := s.selectedTileId) == s
  {
    match FindIndex(s.tiles, CarriesId(id))
    case None => s
    case Some(k) =>
      var src := s.tiles[k];
      var newId := NextId(s.tiles);
      var copy := Tile(newId, CopyName(src.name), src.tags, src.data, src.width, src.height);
      assert FirstWithId(s.tiles, id, k);
      assert forall k' :: FirstWithId(s.tiles, id, k') ==> k' == k;
      assert (s.tiles + [copy])[..|s.tiles|] == s.tiles;
      s.(tiles := s.tiles + [copy], selectedTileId := Some(newId))
  }

  /** Duplicating keeps every tile well-formed and the selection valid. */
  lemma DuplicateKeepsInvariants(s: TilesState, id: int)
    requires SelectionValid(s) && TilesWellFormed(s.tiles)
    ensures SelectionValid(DuplicateTile(s, id)) && TilesWellFormed(DuplicateTile(s, id).tiles)
  {
    var r := DuplicateTile(s, id);
    match FindIndex(s.tiles, CarriesId(id))
    case None =>
    case Some(k) =>
      assert FirstWithId(s.tiles, id, k);
      assert r.tiles[|s.tiles|].id == r.selectedTileId.value;
      assert forall i :: 0 <= i < |s.tiles| ==> r.tiles[i] == s.tiles[i];
  }

  // ---------------------------------------------------------------------
  // Editing tiles

  /** Every tile carrying `id` takes `data`; every other tile is kept. */
  function UpdateTilePixels(s: TilesState, id: int, data: seq<Byte>): (r: TilesState)
    ensures |r.tiles| == |s.tiles|
    ensures forall i :: 0 <= i < |s.tiles| ==>
              r.tiles[i] == if s.tiles[i].id == id then s.tiles[i].(data := data) else s.tiles[i]
    ensures r.(tiles := s.tiles) == s
  {
    s.(tiles := seq(|s.tiles|, i requires 0 <= i < |s.tiles| =>
                 if s.tiles[i].id == id then s.tiles[i].(data := data) else s.tiles[i]))
  }

  /** A later pixel write to the same id overrides an earlier one. */
  lemma UpdateTilePixelsLastWins(s: TilesState, id: int, d1: seq<Byte>, d2: seq<Byte>)
    ensures UpdateTilePixels(UpdateTilePixels(s, id, d1), id, d2) == UpdateTilePixels(s, id, d2)
  {
    assert UpdateTilePixels(UpdateTilePixels(s, id, d1), id, d2).tiles == UpdateTilePixels(s, id, d2).tiles;
  }

  /** Writing a buffer of the right length to every tile with the id keeps all tiles well-formed. */
  lemma UpdateTilePixelsKeepsWellFormed(s: TilesState, id: int, data: seq<Byte>)
    requires TilesWellFormed(s.tiles)
    requires forall i :: 0 <= i < |s.tiles| && s.tiles[i].id == id ==> |data| == |s.tiles[i].data|
    ensures TilesWellFormed(UpdateTilePixels(s, id, data).tiles)
  {
  }

  /** A partial tile: each present field overrides the tile's own. */
  datatype TileUpdate = TileUpdate(
    id: Option<int>,
    name: Option<Option<string>>,
    tags: Option<Option<seq<string>>>,
    data: Option<seq<Byte>>,
    width: Option<int>,
    height: Option<int>)

  const NoUpdate: TileUpdate := TileUpdate(None, None, None, None, None, None)

  /** `{ ...t, ...u }`: the fields `u` carries replace the tile's. */
  function ApplyUpdate(t: Tile, u: TileUpdate): (r: Tile)
    ensures r.id == u.id.GetOr(t.id) && r.name == u.name.GetOr(t.name) && r.tags == u.tags.GetOr(t.tags)
    ensures r.data == u.data.GetOr(t.data) && r.width == u.width.GetOr(t.width)
    ensures r.height == u.height.GetOr(t.height)
  {
    Tile(u.id.GetOr(t.id), u.name.GetOr(t.name), u.tags.GetOr(t.tags),
         u.data.GetOr(t.data), u.width.GetOr(t.width), u.height.GetOr(t.height))
  }

  /** Every tile carrying `id` takes the update's fields; every other tile is kept. */
  function UpdateTile(s: TilesState, id: int, u: TileUpdate): (r: TilesState)
    ensures |r.tiles| == |s.tiles|
    ensures forall i :: 0 <= i < |s.tiles| ==>
              r.tiles[i] == if s.tiles[i].id == id then ApplyUpdate(s.tiles[i], u) else s.tiles[i]
    ensures r.(tiles := s.tiles) == s
  {
    s.(tiles := seq(|s.tiles|, i requires 0 <= i < |s.tiles| =>
                 if s.tiles[i].id == id then ApplyUpdate(s.tiles[i], u) else s.tiles[i]))
  }

  /** An empty update changes nothing, and applying the same update twice is applying it once. */
  lemma UpdateTileIdempotent(s: TilesState, id: int, u: TileUpdate)
    ensures UpdateTile(s, id, NoUpdate) == s
    ensures UpdateTile(UpdateTile(s, id, u), id, u) == UpdateTile(s, id, u)
  {
    assert UpdateTile(s, id, NoUpdate).tiles == s.tiles;
    var once := UpdateTile(s, id, u);
    assert UpdateTile(once, id, u).tiles == once.tiles;
  }

  // ---------------------------------------------------------------------
  // Selection, tool, colours, palette, grid

  function SelectTile(s: TilesState, id: Option<int>): (r: TilesState)
    ensures r.selectedTileId == id && r.(selectedTileId := s.selectedTileId) == s
  {
    s.(selectedTileId := id)
  }

  function SetTool(s: TilesState, tool: Tool): (r: TilesState)
    ensures r.currentTool == tool && r.(currentTool := s.currentTool) == s
  {
    s.(currentTool := tool)
  }

  function SetPrimaryColor(s: TilesState, color: string): (r: TilesState)
    ensures r.primaryColor == color && r.(primaryColor := s.primaryColor) == s
  {
    s.(primaryColor := color)
  }

  function SetSecondaryColor(s: TilesState, color: string): (r: TilesState)
    ensures r.secondaryColor == color && r.(secondaryColor := s.secondaryColor) == s
  {
    s.(secondaryColor := color)
  }

  /** Set palette entry `index` to `color` when `index` is a position of the palette. */
  function UpdateColorPalette(s: TilesState, index: int, color: string): (r: TilesState)
    ensures |r.colorPalette| == |s.colorPalette|
    ensures 0 <= index < |s.colorPalette| ==> r.colorPalette[index] == color
    ensures forall j :: 0 <= j < |s.colorPalette| && j != index ==> r.colorPalette[j] == s.colorPalette[j]
    ensures r.(colorPalette := s.colorPalette) == s
  {
    var newPalette := s.colorPalette;
    s.(colorPalette := if 0 <= index < |newPalette| then newPalette[index := color] else newPalette)
  }

  /** Out-of-range palette edits change nothing; repeating an edit changes nothing more. */
  lemma UpdateColorPaletteProperties(s: TilesState, index: int, color: string)
    ensures !(0 <= index < |s.colorPalette|) ==> UpdateColorPalette(s, index, color) == s
    ensures UpdateColorPalette(UpdateColorPalette(s, index, color), index, color) == UpdateColorPalette(s, index, color)
  {
    var once := UpdateColorPalette(s, index, color);
    assert UpdateColorPalette(once, index, color).colorPalette == once.colorPalette;
  }

  function ToggleGrid(s: TilesState): (r: TilesState)
    ensures r.showGrid == !s.showGrid && r.(showGrid := s.showGrid) == s
  {
    s.(showGrid := !s.showGrid)
  }

  lemma ToggleGridTwice(s: TilesState)
    ensures ToggleGrid(ToggleGrid(s)) == s
  {
  }

  /** Back to the starting state, whatever came before. */
  function ResetStore(s: TilesState): (r: TilesState)
    ensures r == InitialState()
  {
    var tiles := MockData.CreateDefaultTileset().tiles;
    TilesState(tiles, if |tiles| > 0 then Some(tiles[0].id) else None, Pencil,
               DefaultPrimaryColor, DefaultSecondaryColor, DefaultColorPalette, true)
  }
}
