/**
  Checks a map against the subset of the Tiled JSON map format the editor
  writes: version "1.0", positive map and tile sizes, at least one layer of
  the map's size whose data has one entry per cell, and at least one
  non-empty tileset with the map's tile size. Problems are reported in a
  fixed order as human-readable messages.
 */
module TiledValidation {
  import opened Types
  import Decimal

  /** One problem found in a map, carrying the values its message prints. */
  datatype ValidationError =
    | InvalidVersion(version: string)
    | InvalidDimensions(width: int, height: int)
    | InvalidTileDimensions(tilewidth: int, tileheight: int)
    | NoLayers
    | LayerDimensionMismatch(layer: int, layerWidth: int, layerHeight: int, mapWidth: int, mapHeight: int)
    | LayerDataLength(layer: int, actual: int, expected: int)
    | NoTilesets
    | EmptyTileset(tileset: int)
    | TilesetTileSizeMismatch(tileset: int)

  datatype ValidationResult = ValidationResult(valid: bool, errors: seq<string>)

  function Str(i: int): string {
    Decimal.IntToString(i)
  }

  /** The message the validator prints for each problem. */
  function Message(e: ValidationError): string {
    match e
    case InvalidVersion(v) => "Invalid version: " + v + ". Expected \"1.0\""
    case InvalidDimensions(w, h) => "Invalid dimensions: width=" + Str(w) + ", height=" + Str(h)
    case InvalidTileDimensions(tw, th) =>
      "Invalid tile dimensions: tilewidth=" + Str(tw) + ", tileheight=" + Str(th)
    case NoLayers => "Map must have at least one layer"
    case LayerDimensionMismatch(i, lw, lh, mw, mh) =>
      "Layer " + Str(i) + ": Dimensions (" + Str(lw) + "x" + Str(lh) + ") don't match map (" +
      Str(mw) + "x" + Str(mh) + ")"
    case LayerDataLength(i, actual, expected) =>
      "Layer " + Str(i) + ": Data array length (" + Str(actual) + ") doesn't match expected (" +
      Str(expected) + ")"
    case NoTilesets => "Map must have at least one tileset"
    case EmptyTileset(i) => "Tileset " + Str(i) + ": Must have at least one tile"
    case TilesetTileSizeMismatch(i) => "Tileset " + Str(i) + ": Tile dimensions don't match map tile dimensions"
  }

  // ---------------------------------------------------------------------
  // Reference: what a conforming map is

  predicate LayerConforms(m: Map, l: Layer) {
    l.width == m.width && l.height == m.height && |l.data| == l.width * l.height
  }

  predicate TilesetConforms(m: Map, t: Tileset) {
    |t.tiles| > 0 && t.tilewidth == m.tilewidth && t.tileheight == m.tileheight
  }

  /** A map the validator accepts. */
  predicate Conforms(m: Map) {
    && m.version == "1.0"
    && m.width > 0 && m.height > 0
    && m.tilewidth > 0 && m.tileheight > 0
    && |m.layers| > 0 && (forall l :: l in m.layers ==> LayerConforms(m, l))
    && |m.tilesets| > 0 && (forall t :: t in m.tilesets ==> TilesetConforms(m, t))
  }

  // ---------------------------------------------------------------------
  // The checks, in the order they report

  predicate LayerSizeDiffers(m: Map, i: int)
    requires 0 <= i < |m.layers|
  {
    m.layers[i].width != m.width || m.layers[i].height != m.height
  }

  predicate LayerLengthDiffers(m: Map, i: int)
    requires 0 <= i < |m.layers|
  {
    |m.layers[i].data| != m.layers[i].width * m.layers[i].height
  }

  /** The problems of layer `i`: size first, then data length. */
  function LayerErrorsAt(m: Map, i: int): (r: seq<ValidationError>)
    requires 0 <= i < |m.layers|
    ensures |r| == 0 <==> LayerConforms(m, m.layers[i])
  {
    var l := m.layers[i];
    (if LayerSizeDiffers(m, i) then [LayerDimensionMismatch(i, l.width, l.height, m.width, m.height)] else []) +
    (if LayerLengthDiffers(m, i) then [LayerDataLength(i, |l.data|, l.width * l.height)] else [])
  }

  /** The problems of layers `i`, `i + 1`, … in layer order. */
  function LayerErrors(m: Map, i: nat): (r: seq<ValidationError>)
    requires i <= |m.layers|
    ensures |r| == 0 <==> forall j :: i <= j < |m.layers| ==> LayerConforms(m, m.layers[j])
    ensures forall j :: i <= j < |m.layers| ==>
              (LayerSizeDiffers(m, j) <==>
                 LayerDimensionMismatch(j, m.layers[j].width, m.layers[j].height, m.width, m.height) in r)
    ensures forall j :: i <= j < |m.layers| ==>
              (LayerLengthDiffers(m, j) <==>
                 LayerDataLength(j, |m.layers[j].data|, m.layers[j].width * m.layers[j].height) in r)
    ensures forall e :: e in r ==> (e.LayerDimensionMismatch? || e.LayerDataLength?) && i <= e.layer < |m.layers|
    decreases |m.layers| - i
  {
    if i == |m.layers| then []
    else
      var tail := LayerErrors(m, i + 1);
      LayerErrorsCons(m, i, tail);
      LayerErrorsAt(m, i) + tail
  }

  /** The problems of layer `i` followed by those of later layers are the problems from `i` on. */
  lemma LayerErrorsCons(m: Map, i: nat, tail: seq<ValidationError>)
    requires i < |m.layers|
    requires |tail| == 0 <==> forall j :: i + 1 <= j < |m.layers| ==> LayerConforms(m, m.layers[j])
    requires forall j :: i + 1 <= j < |m.layers| ==>
               (LayerSizeDiffers(m, j) <==>
                  LayerDimensionMismatch(j, m.layers[j].width, m.layers[j].height, m.width, m.height) in tail)
    requires forall j :: i + 1 <= j < |m.layers| ==>
               (LayerLengthDiffers(m, j) <==>
                  LayerDataLength(j, |m.layers[j].data|, m.layers[j].width * m.layers[j].height) in tail)
    requires forall e :: e in tail ==> (e.LayerDimensionMismatch? || e.LayerDataLength?) && i + 1 <= e.layer < |m.layers|
    ensures var r := LayerErrorsAt(m, i) + tail;
            (|r| == 0 <==> forall j :: i <= j < |m.layers| ==> LayerConforms(m, m.layers[j])) &&
            (forall j :: i <= j < |m.layers| ==>
               (LayerSizeDiffers(m, j) <==>
                  LayerDimensionMismatch(j, m.layers[j].width, m.layers[j].height, m.width, m.height) in r)) &&
            (forall j :: i <= j < |m.layers| ==>
               (LayerLengthDiffers(m, j) <==>
                  LayerDataLength(j, |m.layers[j].data|, m.layers[j].width * m.layers[j].height) in r)) &&
            (forall e :: e in r ==> (e.LayerDimensionMismatch? || e.LayerDataLength?) && i <= e.layer < |m.layers|)
  {
    var head := LayerErrorsAt(m, i);
    var r := head + tail;
    assert forall e :: e in head ==> e.layer == i;
    forall j | i <= j < |m.layers|
      ensures LayerSizeDiffers(m, j) <==>
                LayerDimensionMismatch(j, m.layers[j].width, m.layers[j].height, m.width, m.height) in r
      ensures LayerLengthDiffers(m, j) <==>
                LayerDataLength(j, |m.layers[j].data|, m.layers[j].width * m.layers[j].height) in r
    {
      if j == i {
        assert LayerDimensionMismatch(j, m.layers[j].width, m.layers[j].height, m.width, m.height) !in tail;
        assert LayerDataLength(j, |m.layers[j].data|, m.layers[j].width * m.layers[j].height) !in tail;
      }
    }
  }

  predicate TilesetEmpty(m: Map, i: int)
    requires 0 <= i < |m.tilesets|
  {
    |m.tilesets[i].tiles| == 0
  }

  predicate TilesetSizeDiffers(m: Map, i: int)
    requires 0 <= i < |m.tilesets|
  {
    m.tilesets[i].tilewidth != m.tilewidth || m.tilesets[i].tileheight != m.tileheight
  }

  /** The problems of tileset `i`: emptiness first, then tile size. */
  function TilesetErrorsAt(m: Map, i: int): (r: seq<ValidationError>)
    requires 0 <= i < |m.tilesets|
    ensures |r| == 0 <==> TilesetConforms(m, m.tilesets[i])
  {
    (if TilesetEmpty(m, i) then [EmptyTileset(i)] else []) +
    (if TilesetSizeDiffers(m, i) then [TilesetTileSizeMismatch(i)] else [])
  }

  /** The problems of tilesets `i`, `i + 1`, … in tileset order. */
  function TilesetErrors(m: Map, i: nat): (r: seq<ValidationError>)
    requires i <= |m.tilesets|
    ensures |r| == 0 <==> forall j :: i <= j < |m.tilesets| ==> TilesetConforms(m, m.tilesets[j])
    ensures forall j :: i <= j < |m.tilesets| ==> (TilesetEmpty(m, j) <==> EmptyTileset(j) in r)
    ensures forall j :: i <= j < |m.tilesets| ==> (TilesetSizeDiffers(m, j) <==> TilesetTileSizeMismatch(j) in r)
    ensures forall e :: e in r ==> (e.EmptyTileset? || e.TilesetTileSizeMismatch?) && i <= e.tileset < |m.tilesets|
    decreases |m.tilesets| - i
  {
    if i == |m.tilesets| then []
    else
      var tail := TilesetErrors(m, i + 1);
      TilesetErrorsCons(m, i, tail);
      TilesetErrorsAt(m, i) + tail
  }

  /** The problems of tileset `i` followed by those of later tilesets are the problems from `i` on. */
  lemma TilesetErrorsCons(m: Map, i: nat, tail: seq<ValidationError>)
    requires i < |m.tilesets|
    requires |tail| == 0 <==> forall j :: i + 1 <= j < |m.tilesets| ==> TilesetConforms(m, m.tilesets[j])
    requires forall j :: i + 1 <= j < |m.tilesets| ==> (TilesetEmpty(m, j) <==> EmptyTileset(j) in tail)
    requires forall j :: i + 1 <= j < |m.tilesets| ==> (TilesetSizeDiffers(m, j) <==> TilesetTileSizeMismatch(j) in tail)
    requires forall e :: e in tail ==> (e.EmptyTileset? || e.TilesetTileSizeMismatch?) && i + 1 <= e.tileset < |m.tilesets|
    ensures var r := TilesetErrorsAt(m, i) + tail;
            (|r| == 0 <==> forall j :: i <= j < |m.tilesets| ==> TilesetConforms(m, m.tilesets[j])) &&
            (forall j :: i <= j < |m.tilesets| ==> (TilesetEmpty(m, j) <==> EmptyTileset(j) in r)) &&
            (forall j :: i <= j < |m.tilesets| ==> (TilesetSizeDiffers(m, j) <==> TilesetTileSizeMismatch(j) in r)) &&
            (forall e :: e in r ==> (e.EmptyTileset? || e.TilesetTileSizeMismatch?) && i <= e.tileset < |m.tilesets|)
  {
    var head := TilesetErrorsAt(m, i);
    assert forall e :: e in head ==> e.tileset == i;
    forall j | i <= j < |m.tilesets|
      ensures TilesetEmpty(m, j) <==> EmptyTileset(j) in head + tail
      ensures TilesetSizeDiffers(m, j) <==> TilesetTileSizeMismatch(j) in head + tail
    {
      if j == i {
        assert EmptyTileset(j) !in tail;
        assert TilesetTileSizeMismatch(j) !in tail;
      }
    }
  }

  /** The map-level problems: version, map size, tile size. */
  function HeaderErrors(m: Map): (r: seq<ValidationError>)
    ensures InvalidVersion(m.version) in r <==> m.version != "1.0"
    ensures InvalidDimensions(m.width, m.height) in r <==> m.width <= 0 || m.height <= 0
    ensures InvalidTileDimensions(m.tilewidth, m.tileheight) in r <==> m.tilewidth <= 0 || m.tileheight <= 0
    ensures forall e :: e in r ==> e.InvalidVersion? || e.InvalidDimensions? || e.InvalidTileDimensions?
    ensures |r| == 0 <==> m.version == "1.0" && m.width > 0 && m.height > 0 && m.tilewidth > 0 && m.tileheight > 0
  {
    (if m.version != "1.0" then [InvalidVersion(m.version)] else []) +
    (if m.width <= 0 || m.height <= 0 then [InvalidDimensions(m.width, m.height)] else []) +
    (if m.tilewidth <= 0 || m.tileheight <= 0 then [InvalidTileDimensions(m.tilewidth, m.tileheight)] else [])
  }

  /** The layer problems: one message for an empty list, else the per-layer problems. */
  function LayerSection(m: Map): (r: seq<ValidationError>)
    ensures NoLayers in r <==> |m.layers| == 0
    ensures forall j :: 0 <= j < |m.layers| ==>
              (LayerSizeDiffers(m, j) <==>
                 LayerDimensionMismatch(j, m.layers[j].width, m.layers[j].height, m.width, m.height) in r)
    ensures forall j :: 0 <= j < |m.layers| ==>
              (LayerLengthDiffers(m, j) <==>
                 LayerDataLength(j, |m.layers[j].data|, m.layers[j].width * m.layers[j].height) in r)
    ensures forall e :: e in r ==> e.NoLayers? || e.LayerDimensionMismatch? || e.LayerDataLength?
    ensures |r| == 0 <==> |m.layers| > 0 && forall l :: l in m.layers ==> LayerConforms(m, l)
  {
    ConformsByIndex(m);
    if |m.layers| == 0 then [NoLayers] else LayerErrors(m, 0)
  }

  /** The tileset problems: one message for an empty list, else the per-tileset problems. */
  function TilesetSection(m: Map): (r: seq<ValidationError>)
    ensures NoTilesets in r <==> |m.tilesets| == 0
    ensures forall j :: 0 <= j < |m.tilesets| ==> (TilesetEmpty(m, j) <==> EmptyTileset(j) in r)
    ensures forall j :: 0 <= j < |m.tilesets| ==> (TilesetSizeDiffers(m, j) <==> TilesetTileSizeMismatch(j) in r)
    ensures forall e :: e in r ==> e.NoTilesets? || e.EmptyTileset? || e.TilesetTileSizeMismatch?
    ensures |r| == 0 <==> |m.tilesets| > 0 && forall t :: t in m.tilesets ==> TilesetConforms(m, t)
  {
    ConformsByIndex(m);
    if |m.tilesets| == 0 then [NoTilesets] else TilesetErrors(m, 0)
  }

  /**
    Every problem of the map, in the order the validator reports them: map
    level, then layers, then tilesets. There is none exactly when the map
    conforms.
   */
  function MapErrors(m: Map): (errs: seq<ValidationError>)
    ensures |errs| == 0 <==> Conforms(m)
  {
    HeaderErrors(m) + LayerSection(m) + TilesetSection(m)
  }

  lemma InConcat3<T>(x: T, a: seq<T>, b: seq<T>, c: seq<T>)
    ensures x in a + b + c <==> x in a || x in b || x in c
  {
    assert x in a + b <==> x in a || x in b;
  }

  /** A wrong version, map size or tile size is reported, and only then. */
  lemma MapLevelChecksReported(m: Map)
    ensures InvalidVersion(m.version) in MapErrors(m) <==> m.version != "1.0"
    ensures InvalidDimensions(m.width, m.height) in MapErrors(m) <==> m.width <= 0 || m.height <= 0
    ensures InvalidTileDimensions(m.tilewidth, m.tileheight) in MapErrors(m) <==>
              m.tilewidth <= 0 || m.tileheight <= 0
  {
    var h, l, t := HeaderErrors(m), LayerSection(m), TilesetSection(m);
    InConcat3(InvalidVersion(m.version), h, l, t);
    InConcat3(InvalidDimensions(m.width, m.height), h, l, t);
    InConcat3(InvalidTileDimensions(m.tilewidth, m.tileheight), h, l, t);
  }

  /** Layer `j`'s two checks, each reported in the whole list exactly when it fails. */
  lemma LayerReportedAt(m: Map, j: int)
    requires 0 <= j < |m.layers|
    ensures LayerSizeDiffers(m, j) <==>
              LayerDimensionMismatch(j, m.layers[j].width, m.layers[j].height, m.width, m.height) in MapErrors(m)
    ensures LayerLengthDiffers(m, j) <==>
              LayerDataLength(j, |m.layers[j].data|, m.layers[j].width * m.layers[j].height) in MapErrors(m)
  {
    var h, l, t := HeaderErrors(m), LayerSection(m), TilesetSection(m);
    var size := LayerDimensionMismatch(j, m.layers[j].width, m.layers[j].height, m.width, m.height);
    var length := LayerDataLength(j, |m.layers[j].data|, m.layers[j].width * m.layers[j].height);
    InConcat3(size, h, l, t);
    InConcat3(length, h, l, t);
  }

  /** An empty layer list, and each layer of the wrong size or data length, is reported, and only then. */
  lemma LayerChecksReported(m: Map)
    ensures NoLayers in MapErrors(m) <==> |m.layers| == 0
    ensures forall j :: 0 <= j < |m.layers| ==>
              (LayerSizeDiffers(m, j) <==>
                 LayerDimensionMismatch(j, m.layers[j].width, m.layers[j].height, m.width, m.height) in MapErrors(m))
    ensures forall j :: 0 <= j < |m.layers| ==>
              (LayerLengthDiffers(m, j) <==>
                 LayerDataLength(j, |m.layers[j].data|, m.layers[j].width * m.layers[j].height) in MapErrors(m))
  {
    InConcat3(NoLayers, HeaderErrors(m), LayerSection(m), TilesetSection(m));
    forall j | 0 <= j < |m.layers| {
      LayerReportedAt(m, j);
    }
  }

  /** Tileset `j`'s two checks, each reported in the whole list exactly when it fails. */
  lemma TilesetReportedAt(m: Map, j: int)
    requires 0 <= j < |m.tilesets|
    ensures TilesetEmpty(m, j) <==> EmptyTileset(j) in MapErrors(m)
    ensures TilesetSizeDiffers(m, j) <==> TilesetTileSizeMismatch(j) in MapErrors(m)
  {
    var h, l, t := HeaderErrors(m), LayerSection(m), TilesetSection(m);
    InConcat3(EmptyTileset(j), h, l, t);
    InConcat3(TilesetTileSizeMismatch(j), h, l, t);
  }

  /** An empty tileset list, and each empty tileset or one of the wrong tile size, is reported, and only then. */
  lemma TilesetChecksReported(m: Map)
    ensures NoTilesets in MapErrors(m) <==> |m.tilesets| == 0
    ensures forall j :: 0 <= j < |m.tilesets| ==> (TilesetEmpty(m, j) <==> EmptyTileset(j) in MapErrors(m))
    ensures forall j :: 0 <= j < |m.tilesets| ==>
              (TilesetSizeDiffers(m, j) <==> TilesetTileSizeMismatch(j) in MapErrors(m))
  {
    InConcat3(NoTilesets, HeaderErrors(m), LayerSection(m), TilesetSection(m));
    forall j | 0 <= j < |m.tilesets| {
      TilesetReportedAt(m, j);
    }
  }

  /** `Conforms` stated per index, as the checks walk the lists. */
  lemma ConformsByIndex(m: Map)
    ensures (forall l :: l in m.layers ==> LayerConforms(m, l)) <==>
            (forall j :: 0 <= j < |m.layers| ==> LayerConforms(m, m.layers[j]))
    ensures (forall t :: t in m.tilesets ==> TilesetConforms(m, t)) <==>
            (forall j :: 0 <= j < |m.tilesets| ==> TilesetConforms(m, m.tilesets[j]))
  {
  }

  /** The validator's verdict: `valid` exactly when there is no message. */
  function ValidateTiledMap(m: Map): (r: ValidationResult)
    ensures r.valid <==> |r.errors| == 0
    ensures r.valid <==> Conforms(m)
    ensures |r.errors| == |MapErrors(m)|
    ensures forall i :: 0 <= i < |r.errors| ==> r.errors[i] == Message(MapErrors(m)[i])
  {
    var errs := MapErrors(m);
    var messages := seq(|errs|, i requires 0 <= i < |errs| => Message(errs[i]));
    ValidationResult(|messages| == 0, messages)
  }
}
