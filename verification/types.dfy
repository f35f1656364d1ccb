/**
  The records of the editor's data model: tiles (RGBA pixel buffers), tilesets,
  layers of tile references, maps, and the four pixel tools.
 */
module Types {
  import opened Wrappers

  /** One entry of a `Uint8ClampedArray`. */
  type Byte = b: int | 0 <= b <= 255

  /** A pixel-art tile; `data` holds four bytes (r, g, b, a) per pixel, row-major. */
  datatype Tile = Tile(
    id: int,
    name: Option<string>,
    tags: Option<seq<string>>,
    data: seq<Byte>,
    width: int,
    height: int)

  datatype Tileset = Tileset(tiles: seq<Tile>, tilewidth: int, tileheight: int)

  /** A grid of tile ids, row-major; -1 marks an empty cell. */
  datatype Layer = Layer(id: int, name: string, data: seq<int>, width: int, height: int)

  /** The subset of the Tiled JSON map the editor keeps in memory. */
  datatype Map = Map(
    version: string,
    width: int,
    height: int,
    tilewidth: int,
    tileheight: int,
    layers: seq<Layer>,
    tilesets: seq<Tileset>)

  datatype Tool = Pencil | Eraser | Fill | Picker
}
