# TileR editing core in Dafny

TileR is a browser-based tile and map editor for the Tiled JSON map format.
This project models the editing core and proves properties of the model:

- tile pixel access;
- the hex colour codecs;
- the four pixel tools (pencil, eraser, breadth-first flood fill, colour picker);
- screen-to-grid conversion;
- the canvas viewport (zoom and pan);
- the Tiled map validator;
- the default tile, tileset and map factories;
- the two application stores (tiles and map);
- the pointer handling of the pixel editor and the map canvas;
- the palette toolbar;
- the map resize dialog.

Every operation is a pure function over immutable datatypes, except the flood fill. That is a method with a loop, verified against a reference definition: the region 4-connected to the start pixel takes the fill colour and nothing else changes.

One module per source file:

| file | module | models |
|---|---|---|
| `wrappers.dfy`, `seqs.dfy`, `types.dfy` | `Wrappers`, `Seqs`, `Types` | `Option`, first-match search, the tile/layer/map/tileset records and the tool enumeration |
| `decimal.dfy` | `Decimal` | integers printed in template strings, and `parseInt(s, 10)` |
| `map_utils.dfy` | `MapUtils` | `src/utils/mapUtils.ts` |
| `tile_utils.dfy` | `TileUtils` | `src/utils/tileUtils.ts` |
| `tool_handlers.dfy` | `ToolHandlers` | `src/features/tiles/ToolHandlers.ts` |
| `viewport.dfy` | `Viewport` | `src/hooks/useCanvas.ts` |
| `tiled_validation.dfy` | `TiledValidation` | `src/utils/tiledValidation.ts` |
| `mock_data.dfy` | `MockData` | `src/utils/mockData.ts` |
| `map_store.dfy` | `MapStore` | `src/store/useMapStore.ts` |
| `tiles_store.dfy` | `TilesStore` | `src/store/useTilesStore.ts` |
| `palette_toolbar.dfy` | `PaletteToolbar` | `src/features/tiles/PaletteToolbar.tsx` |
| `tile_editor.dfy` | `TileEditor` | `src/features/tiles/Editor.tsx` |
| `map_canvas.dfy` | `MapCanvas` | `src/features/map/MapCanvas.tsx` |
| `map_config_panel.dfy` | `MapConfigPanel` | `src/features/map/MapConfigPanel.tsx` |

Conventions:

- Numbers are exact: `int` for ids, sizes and grid coordinates, and `real` for screen positions, zoom and pan.
- Pixel bytes are the subrange 0..255.
- A store action that React applies with `set` is a function from the old state to the new one.
- A component handler is a function from the component's state (its store, its `useCanvas` viewport and its `useState` flags) to the next state.
- A handler that returns early returns the state unchanged.

Behaviour kept as written:

- `setLayerData` and `updateLayerData` act on the first layer with the id. Every layer with that id then receives the first layer's new data.
- `deleteTile` removes every tile with the id.
- The pixel editor's pointer-move handler draws with the primary colour whichever button is held.
- `pickColor` encodes the colour itself rather than calling `rgbaToHex`; the two are proved equal.

## Model

| member | source | states |
|---|---|---|
| Decimal.NatToStringRoundTrip | src/features/map/MapConfigPanel.tsx:23-24 | reading the printed numeral back as decimal digits gives the number |
| Decimal.ParseInt | src/features/map/MapConfigPanel.tsx:41-44 | text without any digit is never a number (`NaN`) |
| Decimal.ParseIntOfNumeral | src/features/map/MapConfigPanel.tsx:41-42 | a numeral followed by text that does not start with a digit parses to the numeral's value; the trailing text is ignored |
| Decimal.ParseIntOfNegative | src/features/map/MapConfigPanel.tsx:41-42 | a minus sign and digits parse to the negated value |
| Decimal.ParseIntOfPositive | src/features/map/MapConfigPanel.tsx:41-42 | a plus sign and digits parse to the digits' value |
| Decimal.ParseIntDefined | src/features/map/MapConfigPanel.tsx:41-44 | a number is read exactly when a digit follows the leading white space and the optional sign; otherwise the result is `NaN` |
| Decimal.ParseIntNotNumeral | src/features/map/MapConfigPanel.tsx:41-44 | text whose first character is neither white space, a sign nor a digit ("a5") is `NaN` |
| Decimal.ParseIntSignNotNumeral | src/features/map/MapConfigPanel.tsx:41-44 | a sign not followed by a digit ("--5", "-x9", "+") is `NaN` |
| Decimal.ParseIntSkipsSpace | src/features/map/MapConfigPanel.tsx:41-42 | white space in front of the text does not change what is read |
| Decimal.ParseIntRoundTrip | src/features/map/MapConfigPanel.tsx:23-24 | parsing what an integer prints as gives the integer back |
| MapUtils.ScreenToTileCoords | src/utils/mapUtils.ts:12-30 | the returned cell's on-screen span (offset plus cell index times tile size times scale) contains the pointer, on each axis |
| MapUtils.CellUnique | src/utils/mapUtils.ts:26-27 | at most one cell's span contains a screen position, so the floored cell is the only answer |
| MapUtils.IndexToTileCoords | src/utils/mapUtils.ts:66-70 | a non-negative index gives a column in `[0, width)` whose row-major index is the index again; a negative index gives a negative row and a column in `(-width, 0]`, as JavaScript's truncating `%` does |
| MapUtils.ValidCoordIndexInRange | src/utils/mapUtils.ts:40-58 | a cell inside the map has a row-major index inside the `width * height` data array |
| MapUtils.IndexCoordsRoundTrip | src/utils/mapUtils.ts:56-70 | index then coordinates gives back any valid cell |
| MapUtils.CoordsIndexRoundTrip | src/utils/mapUtils.ts:56-70 | coordinates then index gives back any index of the data array, through a valid cell |
| MapUtils.IndexInjective | src/utils/mapUtils.ts:56-58 | distinct valid cells have distinct indices |
| TileUtils.GetPixelColor | src/utils/tileUtils.ts:52-68 | absent exactly when the pixel is outside the tile; otherwise channel n is byte `(y*w+x)*4+n` |
| TileUtils.SetPixelColor | src/utils/tileUtils.ts:81-102 | outside the tile the buffer is returned as is; inside, the pixel's four bytes become `[r,g,b,a]` and every other byte is kept |
| TileUtils.GetAfterSet | src/utils/tileUtils.ts:52-102 | reading a pixel just written gives the written colour |
| TileUtils.GetAfterSetOther | src/utils/tileUtils.ts:52-102 | writing one pixel leaves every other pixel's colour as it was |
| TileUtils.SetSameColor | src/utils/tileUtils.ts:52-102 | writing a pixel's own colour back gives the same buffer |
| TileUtils.StripHash | src/utils/tileUtils.ts:110 | a string without `#` is kept; a leading `#` is dropped |
| TileUtils.StripHashRemovesFirst | src/utils/tileUtils.ts:110 | when position i holds the first `#` of the string, the result is the string with exactly position i removed |
| TileUtils.HexToRgba | src/utils/tileUtils.ts:109-119 | after the `#` is removed, red, green and blue are the first, second and third digit pairs read in base 16, and alpha is the fourth pair when there are eight or more characters and 255 otherwise |
| TileUtils.HexCaseInsensitive | src/utils/tileUtils.ts:111-116 | an upper-case hex digit decodes to the same value as its lower-case form |
| TileUtils.HexDigitRoundTrip | src/utils/tileUtils.ts:111-116 | printing a decoded digit in base 16 gives the digit back, lower-cased |
| TileUtils.ByteToHexOfPair | src/utils/tileUtils.ts:111-129 | a pair of hex digits of either case, read and printed again, gives the pair lower-cased |
| TileUtils.HexToRgbaCanonical | src/utils/tileUtils.ts:109-132 | for every decodable colour, encoding its decoding gives `#`, its first six digits lower-cased, then its alpha digits lower-cased or "ff" when it has none |
| TileUtils.HexToRgbaExamples | src/utils/tileUtils.ts:105 | "#FF0000" and "#FF0000FF" decode to opaque red, and the store's defaults "#000000FF" and "#FFFFFFFF" decode to opaque black and white |
| TileUtils.HashOptional | src/utils/tileUtils.ts:109-119 | a colour decodes the same with or without its leading `#` |
| TileUtils.ByteToHex | src/utils/tileUtils.ts:129 | two lower-case hex digits that parse back to the value clamped into [0, 255] |
| TileUtils.RgbaToHex | src/utils/tileUtils.ts:126-132 | `#` and eight lower-case hex digits, which decode back to the clamped channels |
| TileUtils.CanonicalHexRoundTrip | src/utils/tileUtils.ts:109-132 | decoding then encoding gives back any `#rrggbbaa` string |
| ToolHandlers.DrawPixel | src/features/tiles/ToolHandlers.ts:12-20 | inside the tile the pixel reads as the decoded colour and every other pixel is unchanged; outside, the buffer is returned as is |
| ToolHandlers.ErasePixel | src/features/tiles/ToolHandlers.ts:29-31 | as the pencil, with transparent black `(0,0,0,0)` |
| ToolHandlers.PickColor | src/features/tiles/ToolHandlers.ts:133-145 | absent exactly outside the tile; otherwise a nine-character hex colour, equal to `RgbaToHex` of the pixel, that decodes to the pixel's colour |
| ToolHandlers.PickThenDraw | src/features/tiles/ToolHandlers.ts:133-145 | drawing the picked colour back onto its pixel changes nothing |
| ToolHandlers.ScreenToPixel | src/features/tiles/ToolHandlers.ts:157-173 | the returned pixel's on-screen span contains the pointer, on each axis, even off the tile |
| ToolHandlers.ScreenToPixelIsUnitTiles | src/features/tiles/ToolHandlers.ts:157-173 | pixel lookup equals map-cell lookup with one-unit tiles |
| ToolHandlers.FloodFill | src/features/tiles/ToolHandlers.ts:41-124 | the queue-and-visited-set fill equals the reference definition `FloodFilled`: unchanged when the start is outside the tile or already has the fill colour, otherwise the 4-connected region of the start colour filled and all else kept |
| ToolHandlers.FloodFilledPixels | src/features/tiles/ToolHandlers.ts:41-124 | pixel view of the fill: a pixel connected to the start reads as the fill colour and any other pixel reads as before |
| ToolHandlers.FloodFillIdempotent | src/features/tiles/ToolHandlers.ts:66-74 | filling again from the same start with the same colour changes nothing |
| Viewport.ZoomIn | src/hooks/useCanvas.ts:28-30 | the scale becomes the product or the maximum 4, never above either; the pan is kept |
| Viewport.ZoomOut | src/hooks/useCanvas.ts:32-34 | the scale becomes the quotient or the minimum 0.25, never below either; the pan is kept |
| Viewport.SetZoom | src/hooks/useCanvas.ts:36-38 | the scale lands in [0.25, 4]: the request when in range, else the nearer limit |
| Viewport.Pan | src/hooks/useCanvas.ts:40-43 | the offsets move by exactly `(dx, dy)`; the scale is kept |
| Viewport.SetPan | src/hooks/useCanvas.ts:45-48 | the offsets become `(x, y)`; the scale is kept |
| Viewport.ResetView | src/hooks/useCanvas.ts:50-54 | the view is a fresh default one (scale 1, no pan) |
| Viewport.ZoomInGrows | src/hooks/useCanvas.ts:28-30 | a factor above one strictly enlarges a positive scale below the maximum |
| Viewport.ZoomOutShrinks | src/hooks/useCanvas.ts:32-34 | a factor above one strictly shrinks a scale above the minimum |
| Viewport.SetZoomIdempotent | src/hooks/useCanvas.ts:36-38 | repeating a zoom setting changes nothing |
| Viewport.PanInverse | src/hooks/useCanvas.ts:40-43 | panning back by the opposite amounts restores the view; two pans add up |
| Viewport.SetPanAbsolute | src/hooks/useCanvas.ts:40-48 | `setPan` ignores earlier panning |
| Viewport.ZoomsStayInRange | src/hooks/useCanvas.ts:28-38 | any sequence of zoom in, zoom out and set zoom with factors of at least one keeps an in-range scale in range |
| TiledValidation.HeaderErrors | src/utils/tiledValidation.ts:45-59 | each map-level problem is reported exactly when its check fails, and it is empty exactly for version "1.0" with positive map and tile sizes |
| TiledValidation.LayerErrorsAt | src/utils/tiledValidation.ts:72-85 | a layer's problems are empty exactly when it has the map's size and one entry per cell |
| TiledValidation.LayerErrors | src/utils/tiledValidation.ts:65-86 | from layer i on, each size or length problem is reported exactly when that layer fails the check, and only layer problems of those layers appear |
| TiledValidation.TilesetErrorsAt | src/utils/tiledValidation.ts:93-103 | a tileset's problems are empty exactly when it is non-empty with the map's tile size |
| TiledValidation.TilesetErrors | src/utils/tiledValidation.ts:93-103 | from tileset i on, each emptiness or tile-size problem is reported exactly when that tileset fails the check |
| TiledValidation.LayerSection | src/utils/tiledValidation.ts:61-87 | "no layers" exactly for an empty list, the per-layer problems otherwise; empty exactly when every layer conforms |
| TiledValidation.TilesetSection | src/utils/tiledValidation.ts:89-104 | "no tilesets" exactly for an empty list, the per-tileset problems otherwise; empty exactly when every tileset conforms |
| TiledValidation.MapErrors | src/utils/tiledValidation.ts:35-110 | no problem exactly when the map conforms to the format |
| TiledValidation.MapLevelChecksReported | src/utils/tiledValidation.ts:45-59 | in the full list, each map-level problem appears exactly when its check fails |
| TiledValidation.LayerChecksReported | src/utils/tiledValidation.ts:61-87 | in the full list, "no layers" and each layer's size and length problems appear exactly when their checks fail |
| TiledValidation.TilesetChecksReported | src/utils/tiledValidation.ts:89-104 | in the full list, "no tilesets" and each tileset's problems appear exactly when their checks fail |
| TiledValidation.ValidateTiledMap | src/utils/tiledValidation.ts:35-110 | `valid` exactly when there is no message and exactly when the map conforms; one message per problem, in order |
| MockData.CreateDefaultTile | src/utils/mockData.ts:7-26 | a well-formed tile of the given size and id, every byte 0, no name or tags |
| MockData.DefaultTileTransparent | src/utils/mockData.ts:7-26 | every pixel of a default tile reads as transparent black |
| MockData.CreateDefaultTileset | src/utils/mockData.ts:28-37 | one well-formed blank tile (every byte 0, no name or tags), id 0, of the tileset's tile size |
| MockData.CreateDefaultMap | src/utils/mockData.ts:42-60 | a 1×1 version "1.0" map with one empty layer (id 0) and the default tileset |
| MockData.DefaultMapValid | src/utils/mockData.ts:42-60 | the default map passes validation exactly when its tile size is positive |
| MapStore.InitialStateFits | src/store/useMapStore.ts:22-25 | the starting map's layers have the map's size |
| MapStore.UpdateMap | src/store/useMapStore.ts:28-30 | the map is replaced and the selection and grid switch are kept |
| MapStore.ResizeData | src/store/useMapStore.ts:45-55 | a `w × h` grid whose cells inside the old size keep their entries and whose other cells are empty (-1) |
| MapStore.GrowShrinkRestores | src/store/useMapStore.ts:45-55 | growing a grid and shrinking it back restores it |
| MapStore.ResizeDataSameSize | src/store/useMapStore.ts:45-55 | resizing a grid to its own size keeps it |
| MapStore.ResizeLayer | src/store/useMapStore.ts:57-62 | a resized layer keeps its id and name and takes the new size and resized data |
| MapStore.ResizeMap | src/store/useMapStore.ts:32-66 | the map and every layer take the new size, with the layers in order and resized; everything else is kept and the layers fit the map |
| MapStore.ResizeMapCells | src/store/useMapStore.ts:32-66 | cell by cell: an old entry inside both sizes is kept, every other new cell is empty |
| MapStore.ResizeGrowShrinkRestores | src/store/useMapStore.ts:32-66 | growing the map and shrinking it back restores the state |
| MapStore.ResizeSameSize | src/store/useMapStore.ts:32-66 | resizing the map to its own size changes nothing |
| MapStore.ReplaceLayerData | src/store/useMapStore.ts:81-83 | every layer with the id takes the data; every other layer is kept |
| MapStore.FirstLayer | src/store/useMapStore.ts:70 | absent exactly when no layer has the id, else the position of the first one |
| MapStore.SetLayerData | src/store/useMapStore.ts:68-91 | no change for an unknown id or data whose length differs from the first such layer's cell count; otherwise the data goes to every layer with the id |
| MapStore.SetLayerDataKeepsFit | src/store/useMapStore.ts:68-91 | writing layer data keeps every layer at the map's size |
| MapStore.SetLayerDataReadBack | src/store/useMapStore.ts:68-91 | data of the right length can be read back from every layer with the id |
| MapStore.WriteCell | src/store/useMapStore.ts:103-105 | the layer's data with exactly entry `y*width+x` changed to the tile id |
| MapStore.UpdateLayerData | src/store/useMapStore.ts:93-117 | no change for an unknown id or a cell outside the first such layer; otherwise every layer with the id takes that layer's data with the cell written |
| MapStore.UpdateLayerDataCell | src/store/useMapStore.ts:93-117 | with one layer carrying the id, exactly the target cell of that layer changes and it holds the tile id |
| MapStore.UpdateLayerDataKeepsFit | src/store/useMapStore.ts:93-117 | a cell write keeps every layer at the map's size |
| MapStore.SelectLayer | src/store/useMapStore.ts:119-125 | an existing layer id becomes selected; an unknown one leaves the selection; the map is kept |
| MapStore.SelectLayerKeepsValidSelection | src/store/useMapStore.ts:119-125 | a selection naming an existing layer keeps naming one |
| MapStore.ToggleGridTwice | src/store/useMapStore.ts:127-129 | toggling the grid twice restores the state |
| MapStore.ResetMap | src/store/useMapStore.ts:131-137 | the state becomes the starting state, whatever it was |
| MapStore.ResetMapSound | src/store/useMapStore.ts:131-137 | after a reset the layers fit the map and the selection names a layer, whatever map was loaded |
| TilesStore.InitialState | src/store/useTilesStore.ts:39-51 | the default tileset's tiles with the first selected, pencil, black on white, the 32-colour palette, grid shown |
| TilesStore.InitialStateSound | src/store/useTilesStore.ts:39-51 | the starting selection names a tile, the tiles are well-formed and both colours decode |
| TilesStore.DefaultPaletteDecodes | src/store/useTilesStore.ts:32-37 | every colour of the starting palette, upper-case and six- or eight-digit alike, is a colour `hexToRgba` decodes |
| TilesStore.MaxId | src/store/useTilesStore.ts:83 | at least -1, at least every id, and either -1 or an id of the collection |
| TilesStore.NextId | src/store/useTilesStore.ts:83-84 | a non-negative id above every id of the collection, hence fresh |
| TilesStore.AddTile | src/store/useTilesStore.ts:54-59 | the tile is appended after the unchanged tiles and selected; nothing else changes |
| TilesStore.RemoveIdMembers | src/store/useTilesStore.ts:63 | a tile survives the filter exactly when it was there and does not carry the id |
| TilesStore.RemoveIdAppend | src/store/useTilesStore.ts:63 | the filter works piecewise over concatenation, so survivors keep their order |
| TilesStore.RemoveAbsentId | src/store/useTilesStore.ts:63 | filtering out an id nobody carries keeps the collection |
| TilesStore.DeleteTile | src/store/useTilesStore.ts:61-75 | every tile with the id is removed; a deleted selection moves to the first remaining tile or to none; another selection is kept |
| TilesStore.DeleteKeepsSelectionValid | src/store/useTilesStore.ts:61-75 | a selection naming a tile keeps naming one after a delete |
| TilesStore.AddThenDelete | src/store/useTilesStore.ts:54-75 | adding a tile with a fresh id and deleting it gives back the collection |
| TilesStore.CopyName | src/store/useTilesStore.ts:91 | a copy is named "<name> (copy)"; a missing or empty name gives none |
| TilesStore.DuplicateTile | src/store/useTilesStore.ts:77-103 | an unknown id changes nothing; otherwise a copy of the first matching tile under a fresh id is appended and selected, with the same pixels, size and tags |
| TilesStore.DuplicateKeepsInvariants | src/store/useTilesStore.ts:77-103 | duplicating keeps the tiles well-formed and the selection valid |
| TilesStore.UpdateTilePixels | src/store/useTilesStore.ts:105-111 | every tile with the id takes the buffer; all else is kept |
| TilesStore.UpdateTilePixelsLastWins | src/store/useTilesStore.ts:105-111 | a later pixel write to the same id overrides an earlier one |
| TilesStore.UpdateTilePixelsKeepsWellFormed | src/store/useTilesStore.ts:105-111 | a buffer of the right length keeps every tile well-formed |
| TilesStore.ApplyUpdate | src/store/useTilesStore.ts:115 | each field the partial tile carries replaces the tile's own; the rest are kept |
| TilesStore.UpdateTile | src/store/useTilesStore.ts:113-117 | every tile with the id takes the update; all else is kept |
| TilesStore.UpdateTileIdempotent | src/store/useTilesStore.ts:113-117 | an empty update changes nothing, and applying an update twice is applying it once |
| TilesStore.SelectTile | src/store/useTilesStore.ts:119-121 | only the selection changes |
| TilesStore.SetTool | src/store/useTilesStore.ts:123-125 | only the tool changes |
| TilesStore.SetPrimaryColor | src/store/useTilesStore.ts:127-129 | only the primary colour changes |
| TilesStore.SetSecondaryColor | src/store/useTilesStore.ts:131-133 | only the secondary colour changes |
| TilesStore.UpdateColorPalette | src/store/useTilesStore.ts:135-143 | an in-range entry takes the colour and every other entry and field is kept |
| TilesStore.UpdateColorPaletteProperties | src/store/useTilesStore.ts:135-143 | an out-of-range index changes nothing, and repeating an edit changes nothing more |
| TilesStore.ToggleGridTwice | src/store/useTilesStore.ts:145-147 | toggling the grid twice restores the state |
| TilesStore.ResetStore | src/store/useTilesStore.ts:149-160 | the state becomes the starting state, whatever it was |
| PaletteToolbar.NewTileSize | src/features/tiles/PaletteToolbar.tsx:26 | the first tile's width, or 16 with no tiles |
| PaletteToolbar.HandleAddTile | src/features/tiles/PaletteToolbar.tsx:20-29 | a blank, well-formed, square tile with a fresh id is appended after the unchanged tiles and selected |
| PaletteToolbar.AddTileKeepsInvariants | src/features/tiles/PaletteToolbar.tsx:20-29 | adding keeps the tiles well-formed and makes the selection valid |
| PaletteToolbar.HandleDuplicate | src/features/tiles/PaletteToolbar.tsx:31-35 | nothing without a selection, otherwise the store duplicates the selected tile |
| PaletteToolbar.HandleDelete | src/features/tiles/PaletteToolbar.tsx:37-42 | nothing without a selection, otherwise the selected tile is deleted and the dialog closes |
| PaletteToolbar.DeleteWhenAllowedKeepsATile | src/features/tiles/PaletteToolbar.tsx:37-45 | when delete is enabled and ids are unique, a tile remains and the new selection names one |
| TileEditor.InitialEditor | src/features/tiles/Editor.tsx:28-29 | the editor opens at scale 4 with no pan and nothing being drawn |
| TileEditor.InitialEditorReady | src/features/tiles/Editor.tsx:28 | with well-formed tiles and decodable colours, the starting editor satisfies what the handlers need |
| TileEditor.Selected | src/features/tiles/Editor.tsx:33 | nothing without a selection or matching tile, else the position of the first tile with the selected id |
| TileEditor.PixelUnder | src/features/tiles/Editor.tsx:58 | the pixel whose on-screen span contains the pointer |
| TileEditor.DownColor | src/features/tiles/Editor.tsx:71-72 | secondary colour for the right button, primary otherwise |
| TileEditor.WriteKeepsWellFormed | src/features/tiles/Editor.tsx:75-83 | storing a same-length buffer keeps tiles well-formed, colours decodable and ids unique |
| TileEditor.ApplyTool | src/features/tiles/Editor.tsx:70-94 | pencil and eraser set the pixel and keep the others; fill stores the reference fill; the picker stores the pixel's colour as secondary (right button) or primary and leaves the pixels |
| TileEditor.PointerDown | src/features/tiles/Editor.tsx:48-97 | nothing without a selected tile or outside it; otherwise drawing starts and the tool acts as `ApplyTool` states |
| TileEditor.PointerMove | src/features/tiles/Editor.tsx:100-130 | only while drawing, inside the selected tile, the pencil draws the primary colour and the eraser erases; fill and picker do nothing |
| TileEditor.MoveIgnoresButton | src/features/tiles/Editor.tsx:120-127 | a move draws the same whichever button is held |
| TileEditor.MoveKeepsReady | src/features/tiles/Editor.tsx:100-130 | moves keep tiles well-formed, colours decodable and ids unique |
| TileEditor.PointerUp | src/features/tiles/Editor.tsx:133-148 | drawing ends; with no selected tile the canvas is not shown, so nothing changes |
| TileEditor.NoDrawingAfterUp | src/features/tiles/Editor.tsx:100-135 | after pointer up, moving changes nothing |
| MapCanvas.InitialCanvas | src/features/map/MapCanvas.tsx:12-14 | the canvas opens at scale 1 with no pan, not painting and no hovered cell |
| MapCanvas.CellUnder | src/features/map/MapCanvas.tsx:113-121 | the map cell whose on-screen span contains the pointer |
| MapCanvas.Paint | src/features/map/MapCanvas.tsx:131-133 | a cell write to the selected layer keeps every layer at the map's size |
| MapCanvas.PointerDown | src/features/map/MapCanvas.tsx:106-137 | nothing without a selected layer, for other buttons or off the map; otherwise painting starts, the left button places the selected tile (if any) and the right button empties the cell |
| MapCanvas.PointerMove | src/features/map/MapCanvas.tsx:140-174 | the hovered cell is the cell under the pointer exactly when it is on the map; while painting, held left places the tile and held right erases |
| MapCanvas.PointerUp | src/features/map/MapCanvas.tsx:177-179 | painting ends; without a selected layer nothing changes |
| MapCanvas.NoPaintAfterUp | src/features/map/MapCanvas.tsx:140-179 | after pointer up, moving never changes the map |
| MapCanvas.ClickWritesCell | src/features/map/MapCanvas.tsx:106-137 | with unique layer ids, a click changes exactly the clicked cell of the selected layer, to the selected tile or to empty |
| MapConfigPanel.InitialPanel | src/features/map/MapConfigPanel.tsx:21-25 | the inputs hold text that parses to the map's size; the dialog is closed with no message |
| MapConfigPanel.OpenChange | src/features/map/MapConfigPanel.tsx:27-35 | opening refills the inputs with the map's size and clears the message; closing changes only the dialog flag |
| MapConfigPanel.Cancel | src/features/map/MapConfigPanel.tsx:122 | the dialog closes and nothing else changes |
| MapConfigPanel.SetWidthText | src/features/map/MapConfigPanel.tsx:100 | only the width input changes |
| MapConfigPanel.SetHeightText | src/features/map/MapConfigPanel.tsx:112 | only the height input changes |
| MapConfigPanel.HandleResize | src/features/map/MapConfigPanel.tsx:37-62 | no message exactly when both inputs parse to sizes in [1, 256], and then the map is resized and the dialog closes; otherwise the first failing check's message and the map unchanged |
| MapConfigPanel.LimitsRendered | src/features/map/MapConfigPanel.tsx:17-18 | the limits print as "1" and "256" |
| MapConfigPanel.RangeMessageText | src/features/map/MapConfigPanel.tsx:49-56 | the range message reads "<Width or Height> must be between 1 and 256" |
| MapConfigPanel.ResizeKeepsMapInLimits | src/features/map/MapConfigPanel.tsx:37-62 | whatever is typed, the layers keep fitting the map and its size stays within the limits |
| MapConfigPanel.TypedSizeResizes | src/features/map/MapConfigPanel.tsx:37-62 | typing an in-range size and pressing Resize resizes to exactly that size |
| MapConfigPanel.OpenThenResizeKeepsMap | src/features/map/MapConfigPanel.tsx:27-62 | opening the dialog and pressing Resize at once leaves the map as it was |

## Left out

- Bytes are modelled as 0..255. The clamping `Uint8ClampedArray` applies to out-of-range writes (including `NaN` → 0) is not modelled; every write stores a value already in range.
- `HexToRgba`, `DrawPixel`, `FloodFill`: require a string of six hex digits (plus two more when eight or more characters follow the `#`). On other strings `parseInt` gives `NaN`, or the value of a valid hex prefix ("1g" reads as 1); neither case is modelled.
- `GetPixelColor`, `SetPixelColor`, the pixel tools: require a buffer of exactly four bytes per pixel. The source would read `undefined` or write past the end of a short buffer.
- `ScreenToTileCoords`, `ScreenToPixel`: require a positive scale and tile size. With zero the source divides by zero and gets infinities or `NaN`.
- `ZoomOut`: requires a non-zero factor, for the same reason.
- Floating point is not modelled: positions, zoom and pan are exact reals, and sizes and ids are integers.
- `CreateDefaultTile`, `CreateDefaultTileset`, `CreateDefaultMap`: require a non-negative pixel count. With a negative one the source's typed-array constructor throws a range error. Fractional sizes are not modelled.
- `ResizeMap`: takes natural sizes and requires every layer to already have the map's size. The resize dialog only ever passes sizes in [1, 256]. With misfitting layers the source copies `undefined` entries.
- `UpdateLayerData`: requires every layer to hold one entry per cell. The source would otherwise grow the array when writing past its end.
- `MapCanvas`: its handlers require a positive tile size and layers that fit the map.
- `TileEditor`: its handlers require well-formed tiles and decodable colours.
- `ParseInt`: skips only ASCII white space, not the other Unicode spaces. It ignores precision loss above 2^53.
- `IntToString`: covers integers only. Numbers printed with a fraction or an exponent are not modelled.
- `MaxId`: ignores the range error `Math.max(...ids)` raises for very large collections.
- The validator's `in` checks for missing fields (tiledValidation.ts:39-43, 66-70) and its `Array.isArray` / `!tileset.tiles` guards are not modelled. The typed records always have every field.
- Rendering is not modelled:
  - `tileDataToImageData`, `imageDataToTileData` and `tileToDataURL` (canvas and DOM);
  - the map canvas's image cache and draw callbacks;
  - context-menu suppression;
  - the dialogs' markup.
- The pointer position is taken as already relative to the canvas. `getBoundingClientRect` is not modelled.
- `createDefaultProject` and `generateId` are not modelled: they depend on a random id source and are not used by the editing core.
- Unreachable source branches are left out:
  - the flood fill's `!targetColor` return, which is dead after its bounds check;
  - the `!pixel` and `!tileCoords` checks on values that are never null;
  - the missing-canvas checks.
- The flood fill's visited set of `"x,y"` strings is modelled as a set of coordinates. The two are equivalent because the key is injective on integer pairs.
- The editor's handlers read the store as of the last render. The model reads the current state, which is the same between events.
