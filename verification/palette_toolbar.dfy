/**
  The tile palette's toolbar: add a blank tile, duplicate or delete the
  selected one, and the rules that enable the duplicate and delete buttons.
 */
module PaletteToolbar {
  import opened Wrappers
  import opened Types
  import opened TileUtils
  import opened TilesStore
  import MockData

  /** The toolbar's view of the world: the tile store and whether the delete dialog is open. */
  datatype ToolbarState = ToolbarState(store: TilesState, showDeleteDialog: bool)

  /** The size of a new tile: the first tile's width, or the default 16 when there are no tiles. */
  function NewTileSize(tiles: seq<Tile>): (size: int)
    ensures |tiles| > 0 ==> size == tiles[0].width
    ensures |tiles| == 0 ==> size == MockData.DefaultTileSize
  {
    if |tiles| > 0 then tiles[0].width else MockData.DefaultTileSize
  }

  /**
    Add a blank square tile under a fresh id, sized like the first tile, at
    the end of the collection, and select it.
   */
  function HandleAddTile(s: ToolbarState): (r: ToolbarState)
    ensures var tiles, size := s.store.tiles, NewTileSize(s.store.tiles);
            |r.store.tiles| == |tiles| + 1 && r.store.tiles[..|tiles|] == tiles &&
            var t := r.store.tiles[|tiles|];
            t.id == NextId(tiles) && (forall i :: 0 <= i < |tiles| ==> tiles[i].id != t.id) &&
            t.width == size && t.height == size && WellFormedTile(t) &&
            (forall i :: 0 <= i < |t.data| ==> t.data[i] == 0) &&
            r.store.selectedTileId == Some(t.id)
    ensures r.showDeleteDialog == s.showDeleteDialog
  {
    var newId := NextId(s.store.tiles);
    var tileSize := NewTileSize(s.store.tiles);
    var newTile := MockData.CreateDefaultTile(newId, tileSize, tileSize);
    s.(store := AddTile(s.store, newTile))
  }

  /** Adding a tile keeps every tile well-formed and the selection valid. */
  lemma AddTileKeepsInvariants(s: ToolbarState)
    requires TilesWellFormed(s.store.tiles)
    ensures TilesWellFormed(HandleAddTile(s).store.tiles) && SelectionValid(HandleAddTile(s).store)
  {
    var r := HandleAddTile(s);
    assert forall i :: 0 <= i < |s.store.tiles| ==> r.store.tiles[i] == s.store.tiles[i];
    assert r.store.tiles[|s.store.tiles|].id == r.store.selectedTileId.value;
  }

  /** Delete is offered only with a selection and more than one tile. */
  predicate CanDelete(s: TilesState) {
    s.selectedTileId.Some? && |s.tiles| > 1
  }

  /** Duplicate is offered whenever a tile is selected. */
  predicate CanDuplicate(s: TilesState) {
    s.selectedTileId.Some?
  }

  /** Duplicate the selected tile; with nothing selected nothing happens. */
  function HandleDuplicate(s: ToolbarState): (r: ToolbarState)
    ensures s.store.selectedTileId.None? ==> r == s
    ensures s.store.selectedTileId.Some? ==> r == s.(store := DuplicateTile(s.store, s.store.selectedTileId.value))
  {
    match s.store.selectedTileId
    case None => s
    case Some(id) => s.(store := DuplicateTile(s.store, id))
  }

  /** Delete the selected tile and close the dialog; with nothing selected nothing happens. */
  function HandleDelete(s: ToolbarState): (r: ToolbarState)
    ensures s.store.selectedTileId.None? ==> r == s
    ensures s.store.selectedTileId.Some? ==>
              r.store == DeleteTile(s.store, s.store.selectedTileId.value) && !r.showDeleteDialog
  {
    match s.store.selectedTileId
    case None => s
    case Some(id) => ToolbarState(DeleteTile(s.store, id), false)
  }

  /**
    When delete is offered and ids are unique, deleting leaves at least one
    tile, and the new selection is one of the remaining tiles.
   */
  lemma DeleteWhenAllowedKeepsATile(s: ToolbarState)
    requires CanDelete(s.store) && UniqueIds(s.store.tiles) && SelectionValid(s.store)
    ensures var r := HandleDelete(s).store;
            |r.tiles| > 0 && r.selectedTileId.Some? && SelectionValid(r)
  {
    var tiles, id := s.store.tiles, s.store.selectedTileId.value;
    var i :| 0 <= i < |tiles| && tiles[i].id == id;
    var j := if i == 0 then 1 else 0;
    assert tiles[j].id != id;
    RemoveIdMembers(tiles, id);
    assert tiles[j] in RemoveId(tiles, id);
    DeleteKeepsSelectionValid(s.store, id);
  }
}
