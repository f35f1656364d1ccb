/**
  Factories for the starting content of a project: a blank tile, a tileset
  holding one blank tile, and a 1×1 map whose single cell is empty.
 */
module MockData {
  import opened Wrappers
  import opened Types
  import opened MapUtils
  import opened TileUtils
  import TiledValidation

  const DefaultTileSize: int := 16

  /**
    A tile of `width × height` fully transparent pixels (every byte 0), with
    no name and no tags. A negative pixel count is a range error in the
    source, so it is excluded here.
   */
  function CreateDefaultTile(id: int, width: int := DefaultTileSize, height: int := DefaultTileSize): (t: Tile)
    requires width * height >= 0
    ensures t.id == id && t.width == width && t.height == height
    ensures t.name.None? && t.tags.None?
    ensures |t.data| == width * height * 4 && WellFormedTile(t)
    ensures forall i :: 0 <= i < |t.data| ==> t.data[i] == 0
  {
    Tile(id, None, None, seq(width * height * 4, _ => 0), width, height)
  }

  /** Every pixel of a default tile reads as transparent black. */
  lemma DefaultTileTransparent(id: int, width: int, height: int, x: int, y: int)
    requires width * height >= 0
    requires IsValidTileCoord(x, y, width, height)
    ensures GetPixelColor(CreateDefaultTile(id, width, height), x, y) == Some(Rgba(0, 0, 0, 0))
  {
    PixelBytes(CreateDefaultTile(id, width, height), x, y);
  }

  /** A tileset of the given tile size holding one blank tile with id 0 of that size. */
  function CreateDefaultTileset(tilewidth: int := DefaultTileSize, tileheight: int := DefaultTileSize): (ts: Tileset)
    requires tilewidth * tileheight >= 0
    ensures |ts.tiles| == 1
    ensures ts.tiles[0].id == 0 && ts.tiles[0].width == ts.tilewidth && ts.tiles[0].height == ts.tileheight
    ensures ts.tilewidth == tilewidth && ts.tileheight == tileheight
    ensures WellFormedTile(ts.tiles[0]) && ts.tiles[0].name.None? && ts.tiles[0].tags.None?
    ensures forall i :: 0 <= i < |ts.tiles[0].data| ==> ts.tiles[0].data[i] == 0
  {
    Tileset([CreateDefaultTile(0, tilewidth, tileheight)], tilewidth, tileheight)
  }

  const DefaultLayerName: string := "Tile Layer 1"

  /**
    A 1×1 map, version "1.0", of the given tile size, with one layer (id 0)
    whose only cell is empty (-1), and the default tileset.
   */
  function CreateDefaultMap(tilewidth: int := DefaultTileSize, tileheight: int := DefaultTileSize): (m: Map)
    requires tilewidth * tileheight >= 0
    ensures m.version == "1.0" && m.width == 1 && m.height == 1
    ensures m.tilewidth == tilewidth && m.tileheight == tileheight
    ensures |m.layers| == 1 && m.layers[0] == Layer(0, DefaultLayerName, [-1], 1, 1)
    ensures m.tilesets == [CreateDefaultTileset(tilewidth, tileheight)]
  {
    var layer := Layer(0, DefaultLayerName, [-1], 1, 1);
    Map("1.0", 1, 1, tilewidth, tileheight, [layer], [CreateDefaultTileset(tilewidth, tileheight)])
  }

  /** The default map passes validation exactly when its tile size is positive. */
  lemma DefaultMapValid(tilewidth: int, tileheight: int)
    requires tilewidth * tileheight >= 0
    ensures TiledValidation.ValidateTiledMap(CreateDefaultMap(tilewidth, tileheight)).valid
            <==> tilewidth > 0 && tileheight > 0
  {
    var m := CreateDefaultMap(tilewidth, tileheight);
    assert forall l :: l in m.layers ==> TiledValidation.LayerConforms(m, l);
    assert forall t :: t in m.tilesets ==> TiledValidation.TilesetConforms(m, t);
  }
}
