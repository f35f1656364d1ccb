/**
  Pixel access on a tile's RGBA buffer and the hex colour codecs.

  Pixel `(x, y)` of a tile of width `w` occupies the four bytes starting at
  `(y*w + x) * 4`. Writes never mutate their argument: they return a new
  buffer, or the original one when the coordinates are out of bounds.
 */
module TileUtils {
  import opened Wrappers
  import opened Types
  import opened MapUtils

  datatype Rgba = Rgba(r: Byte, g: Byte, b: Byte, a: Byte)

  /** The buffer holds exactly four bytes per pixel. */
  predicate WellFormedTile(tile: Tile) {
    |tile.data| == tile.width * tile.height * 4
  }

  predicate InBounds(tile: Tile, x: int, y: int) {
    IsValidTileCoord(x, y, tile.width, tile.height)
  }

  /** Offset of the red byte of pixel `(x, y)`. */
  function PixelOffset(width: int, x: int, y: int): int {
    TileCoordsToIndex(x, y, width) * 4
  }

  /** Byte `n` (0 = red … 3 = alpha) of a colour. */
  function Channel(c: Rgba, n: int): Byte {
    if n == 0 then c.r else if n == 1 then c.g else if n == 2 then c.b else c.a
  }

  /** The pixel whose four bytes include byte `i` of a buffer. */
  function PixelOfByte(width: int, i: int): Coord
    requires width > 0
  {
    IndexToTileCoords(i / 4, width)
  }

  lemma PixelOffsetInRange(tile: Tile, x: int, y: int)
    requires WellFormedTile(tile) && InBounds(tile, x, y)
    ensures 0 <= PixelOffset(tile.width, x, y)
    ensures PixelOffset(tile.width, x, y) + 4 <= |tile.data|
  {
    ValidCoordIndexInRange(x, y, tile.width, tile.height);
  }

  /**
    Byte `i` belongs to pixel `(x, y)` exactly when it lies in that pixel's
    four-byte block, and then its channel is its distance from the block start.
   */
  lemma ByteOwner(tile: Tile, x: int, y: int, i: int)
    requires WellFormedTile(tile) && InBounds(tile, x, y)
    requires 0 <= i < |tile.data|
    ensures var k := PixelOffset(tile.width, x, y);
            (PixelOfByte(tile.width, i) == Coord(x, y)) <==> (k <= i < k + 4)
    ensures var k := PixelOffset(tile.width, x, y);
            k <= i < k + 4 ==> i % 4 == i - k
  {
    var w := tile.width;
    var idx := TileCoordsToIndex(x, y, w);
    var k := PixelOffset(w, x, y);
    var j := i / 4;
    DivModUnique(j, i % 4, 4);
    assert j < w * tile.height;
    CoordsIndexRoundTrip(j, w, tile.height);
    IndexCoordsRoundTrip(x, y, w, tile.height);
    if k <= i < k + 4 {
      DivModUnique(idx, i - k, 4);
    }
  }

  /** The colour of pixel `(x, y)`, absent when the pixel is outside the tile. */
  function GetPixelColor(tile: Tile, x: int, y: int): (c: Option<Rgba>)
    requires WellFormedTile(tile)
    ensures c.None? <==> !InBounds(tile, x, y)
    ensures c.Some? ==> var k := PixelOffset(tile.width, x, y);
              0 <= k && k + 4 <= |tile.data| &&
              forall n :: 0 <= n < 4 ==> tile.data[k + n] == Channel(c.value, n)
  {
    if x < 0 || x >= tile.width || y < 0 || y >= tile.height then None
    else
      PixelOffsetInRange(tile, x, y);
      var index := (y * tile.width + x) * 4;
      Some(Rgba(tile.data[index], tile.data[index + 1], tile.data[index + 2], tile.data[index + 3]))
  }

  /** The buffer with the four bytes from `k` on replaced by the channels of `c`. */
  function WriteColor(data: seq<Byte>, k: int, c: Rgba): (d: seq<Byte>)
    requires 0 <= k && k + 4 <= |data|
    ensures |d| == |data|
    ensures forall i :: 0 <= i < |d| ==> d[i] == if k <= i < k + 4 then Channel(c, i - k) else data[i]
  {
    data[k := c.r][k + 1 := c.g][k + 2 := c.b][k + 3 := c.a]
  }

  /** The colour stored in the four bytes from `k` on. */
  function ColourAt(data: seq<Byte>, k: int): Rgba
    requires 0 <= k && k + 4 <= |data|
  {
    Rgba(data[k], data[k + 1], data[k + 2], data[k + 3])
  }

  /** An in-bounds pixel reads as the four bytes at its offset. */
  lemma PixelBytes(tile: Tile, x: int, y: int)
    requires WellFormedTile(tile) && InBounds(tile, x, y)
    ensures var k := PixelOffset(tile.width, x, y);
            0 <= k && k + 4 <= |tile.data| &&
            GetPixelColor(tile, x, y) == Some(ColourAt(tile.data, k))
  {
    PixelOffsetInRange(tile, x, y);
  }

  /** Writing a pixel's own colour back leaves the buffer as it was. */
  lemma SetSameColor(tile: Tile, x: int, y: int)
    requires WellFormedTile(tile) && InBounds(tile, x, y)
    ensures var c := GetPixelColor(tile, x, y).value;
            SetPixelColor(tile, x, y, c.r, c.g, c.b, c.a) == tile.data
  {
    PixelBytes(tile, x, y);
    var c := GetPixelColor(tile, x, y).value;
    var k := PixelOffset(tile.width, x, y);
    var d := SetPixelColor(tile, x, y, c.r, c.g, c.b, c.a);
    forall i | 0 <= i < |d|
      ensures d[i] == tile.data[i]
    {
      if k <= i < k + 4 {
        assert d[i] == d[k..k + 4][i - k];
      }
    }
  }

  /**
    A copy of the buffer with pixel `(x, y)` set to `(r, g, b, a)`; the
    original buffer when the pixel is outside the tile.
   */
  function SetPixelColor(tile: Tile, x: int, y: int, r: Byte, g: Byte, b: Byte, a: Byte): (d: seq<Byte>)
    requires WellFormedTile(tile)
    ensures |d| == |tile.data|
    ensures !InBounds(tile, x, y) ==> d == tile.data
    ensures InBounds(tile, x, y) ==>
              var k := PixelOffset(tile.width, x, y);
              0 <= k && k + 4 <= |d| &&
              d[k..k + 4] == [r, g, b, a] &&
              forall i :: 0 <= i < |d| && !(k <= i < k + 4) ==> d[i] == tile.data[i]
  {
    if x < 0 || x >= tile.width || y < 0 || y >= tile.height then tile.data
    else
      PixelOffsetInRange(tile, x, y);
      var index := (y * tile.width + x) * 4;
      WriteColor(tile.data, index, Rgba(r, g, b, a))
  }

  /** Reading back a pixel just written yields the written colour. */
  lemma GetAfterSet(tile: Tile, x: int, y: int, c: Rgba)
    requires WellFormedTile(tile) && InBounds(tile, x, y)
    ensures var t := tile.(data := SetPixelColor(tile, x, y, c.r, c.g, c.b, c.a));
            WellFormedTile(t) && GetPixelColor(t, x, y) == Some(c)
  {
    var d := SetPixelColor(tile, x, y, c.r, c.g, c.b, c.a);
    var k := PixelOffset(tile.width, x, y);
    assert d[k..k + 4][0] == d[k] && d[k..k + 4][1] == d[k + 1];
    assert d[k..k + 4][2] == d[k + 2] && d[k..k + 4][3] == d[k + 3];
  }

  /** Writing one pixel leaves every other pixel's colour as it was. */
  lemma GetAfterSetOther(tile: Tile, x: int, y: int, c: Rgba, x2: int, y2: int)
    requires WellFormedTile(tile) && InBounds(tile, x, y)
    requires x2 != x || y2 != y
    ensures var t := tile.(data := SetPixelColor(tile, x, y, c.r, c.g, c.b, c.a));
            WellFormedTile(t) && GetPixelColor(t, x2, y2) == GetPixelColor(tile, x2, y2)
  {
    if InBounds(tile, x2, y2) {
      IndexInjective(x, y, x2, y2, tile.width, tile.height);
      PixelOffsetInRange(tile, x2, y2);
      var k := PixelOffset(tile.width, x, y);
      var k2 := PixelOffset(tile.width, x2, y2);
      assert k2 + 4 <= k || k + 4 <= k2;
    }
  }

  // ---------------------------------------------------------------------
  // Hex colour codecs

  predicate IsHexDigit(c: char) {
    '0' <= c <= '9' || 'a' <= c <= 'f' || 'A' <= c <= 'F'
  }

  predicate IsLowerHexDigit(c: char) {
    '0' <= c <= '9' || 'a' <= c <= 'f'
  }

  function HexDigitValue(c: char): (v: int)
    requires IsHexDigit(c)
    ensures 0 <= v < 16
  {
    if '0' <= c <= '9' then c as int - '0' as int
    else if 'a' <= c <= 'f' then c as int - 'a' as int + 10
    else c as int - 'A' as int + 10
  }

  /** The lower-case digit `Number.prototype.toString(16)` prints for `v`. */
  function HexDigitChar(v: int): (c: char)
    requires 0 <= v < 16
    ensures IsLowerHexDigit(c) && HexDigitValue(c) == v
  {
    "0123456789abcdef"[v]
  }

  lemma HexDigitCharOfValue(c: char)
    requires IsLowerHexDigit(c)
    ensures HexDigitChar(HexDigitValue(c)) == c
  {
  }

  /** `c` with 'A'–'F' lowered to 'a'–'f'; every other character is kept. */
  function LowerHex(c: char): char {
    if 'A' <= c <= 'F' then (c as int - 'A' as int + 'a' as int) as char else c
  }

  /** `s` with every upper-case hex letter lowered. */
  function LowerHexString(s: string): string {
    seq(|s|, i requires 0 <= i < |s| => LowerHex(s[i]))
  }

  /** Upper- and lower-case hex digits decode alike. */
  lemma HexCaseInsensitive(c: char)
    requires IsHexDigit(c)
    ensures IsLowerHexDigit(LowerHex(c)) && HexDigitValue(LowerHex(c)) == HexDigitValue(c)
  {
  }

  /** Printing a decoded digit gives back the digit, lower-cased. */
  lemma HexDigitRoundTrip(c: char)
    requires IsHexDigit(c)
    ensures HexDigitChar(HexDigitValue(c)) == LowerHex(c)
  {
    HexCaseInsensitive(c);
    HexDigitCharOfValue(LowerHex(c));
  }

  /** `s.replace("#", "")`: removes the first `#`, wherever it is. */
  function StripHash(s: string): (r: string)
    ensures '#' !in s ==> r == s
    ensures |s| > 0 && s[0] == '#' ==> r == s[1..]
  {
    if |s| == 0 then s
    else if s[0] == '#' then s[1..]
    else [s[0]] + StripHash(s[1..])
  }

  /** Only the first `#` goes: whatever precedes it is kept, and everything after it. */
  lemma {:induction false} StripHashRemovesFirst(s: string, i: int)
    requires 0 <= i < |s| && s[i] == '#' && '#' !in s[..i]
    ensures StripHash(s) == s[..i] + s[i + 1..]
  {
    if i > 0 {
      assert s[0] != '#' by { assert s[0] == s[..i][0]; }
      assert '#' !in s[1..][..i - 1] by { assert s[1..][..i - 1] == s[..i][1..]; }
      StripHashRemovesFirst(s[1..], i - 1);
      assert s[..i] == [s[0]] + s[1..][..i - 1];
      assert s[i + 1..] == s[1..][i..];
    }
  }

  /**
    Strings `hexToRgba` decodes into real channel values: after removing the
    `#`, six hex digits, and two more when the rest is eight or more long.
   */
  predicate IsHexColor(hex: string) {
    var n := StripHash(hex);
    |n| >= 6 &&
    (forall i :: 0 <= i < 6 ==> IsHexDigit(n[i])) &&
    (|n| >= 8 ==> IsHexDigit(n[6]) && IsHexDigit(n[7]))
  }

  /** `parseInt(s.substring(i, i + 2), 16)` on two hex digits. */
  function ParseHexByte(s: string, i: int): Byte
    requires 0 <= i && i + 2 <= |s| && IsHexDigit(s[i]) && IsHexDigit(s[i + 1])
  {
    16 * HexDigitValue(s[i]) + HexDigitValue(s[i + 1])
  }

  /** Decodes `#RRGGBB` (alpha 255) or `#RRGGBBAA`. */
  function HexToRgba(hex: string): (c: Rgba)
    requires IsHexColor(hex)
    ensures c.r == ParseHexByte(StripHash(hex), 0) && c.g == ParseHexByte(StripHash(hex), 2)
    ensures c.b == ParseHexByte(StripHash(hex), 4)
    ensures |StripHash(hex)| < 8 ==> c.a == 255
    ensures |StripHash(hex)| >= 8 ==> c.a == ParseHexByte(StripHash(hex), 6)
  {
    var normalized := StripHash(hex);
    var r := ParseHexByte(normalized, 0);
    var g := ParseHexByte(normalized, 2);
    var b := ParseHexByte(normalized, 4);
    var a := if |normalized| >= 8 then ParseHexByte(normalized, 6) else 255;
    Rgba(r, g, b, a)
  }

  /** `Math.max(0, Math.min(255, v))`. */
  function Clamp(v: int): Byte {
    if v > 255 then 255 else if v < 0 then 0 else v
  }

  /** Two lower-case hex digits of the clamped value, zero-padded. */
  function ByteToHex(v: int): (s: string)
    ensures |s| == 2 && IsLowerHexDigit(s[0]) && IsLowerHexDigit(s[1])
    ensures ParseHexByte(s, 0) == Clamp(v)
  {
    var c := Clamp(v);
    [HexDigitChar(c / 16), HexDigitChar(c % 16)]
  }

  /**
    `#` and eight lower-case hex digits, each channel clamped to [0, 255];
    decoding the result gives back the clamped channels.
   */
  function RgbaToHex(r: int, g: int, b: int, a: int): (s: string)
    ensures |s| == 9 && s[0] == '#'
    ensures forall i :: 1 <= i < 9 ==> IsLowerHexDigit(s[i])
    ensures IsHexColor(s)
    ensures HexToRgba(s) == Rgba(Clamp(r), Clamp(g), Clamp(b), Clamp(a))
  {
    var hex := ByteToHex(r) + ByteToHex(g) + ByteToHex(b) + ByteToHex(a);
    ConcatHexPairs(ByteToHex(r), ByteToHex(g), ByteToHex(b), ByteToHex(a));
    var s := "#" + hex;
    assert s[1..] == hex;
    assert StripHash(s) == hex;
    s
  }

  /** Four two-digit pairs laid end to end parse back pair by pair. */
  lemma ConcatHexPairs(h0: string, h1: string, h2: string, h3: string)
    requires |h0| == 2 && IsLowerHexDigit(h0[0]) && IsLowerHexDigit(h0[1])
    requires |h1| == 2 && IsLowerHexDigit(h1[0]) && IsLowerHexDigit(h1[1])
    requires |h2| == 2 && IsLowerHexDigit(h2[0]) && IsLowerHexDigit(h2[1])
    requires |h3| == 2 && IsLowerHexDigit(h3[0]) && IsLowerHexDigit(h3[1])
    ensures var hex := h0 + h1 + h2 + h3;
            |hex| == 8 && (forall i :: 0 <= i < 8 ==> IsLowerHexDigit(hex[i])) &&
            ParseHexByte(hex, 0) == ParseHexByte(h0, 0) && ParseHexByte(hex, 2) == ParseHexByte(h1, 0) &&
            ParseHexByte(hex, 4) == ParseHexByte(h2, 0) && ParseHexByte(hex, 6) == ParseHexByte(h3, 0)
  {
    var hex := h0 + h1 + h2 + h3;
    assert hex[0] == h0[0] && hex[1] == h0[1] && hex[2] == h1[0] && hex[3] == h1[1];
    assert hex[4] == h2[0] && hex[5] == h2[1] && hex[6] == h3[0] && hex[7] == h3[1];
  }

  /** Two lower-case hex digits print back as themselves. */
  lemma ByteToHexOfParsed(n: string, p: int)
    requires 0 <= p && p + 2 <= |n| && IsLowerHexDigit(n[p]) && IsLowerHexDigit(n[p + 1])
    ensures ByteToHex(ParseHexByte(n, p)) == n[p..p + 2]
  {
    var hi := HexDigitValue(n[p]);
    var lo := HexDigitValue(n[p + 1]);
    DivModUnique(hi, lo, 16);
    assert ParseHexByte(n, p) == hi * 16 + lo;
    HexDigitCharOfValue(n[p]);
    HexDigitCharOfValue(n[p + 1]);
  }

  /** Two hex digits of either case print back as themselves, lower-cased. */
  lemma ByteToHexOfPair(n: string, p: int)
    requires 0 <= p && p + 2 <= |n| && IsHexDigit(n[p]) && IsHexDigit(n[p + 1])
    ensures ByteToHex(ParseHexByte(n, p)) == LowerHexString(n[p..p + 2])
  {
    var l := LowerHexString(n[p..p + 2]);
    assert l[0] == LowerHex(n[p]) && l[1] == LowerHex(n[p + 1]);
    HexCaseInsensitive(n[p]);
    HexCaseInsensitive(n[p + 1]);
    assert ParseHexByte(n, p) == ParseHexByte(l, 0);
    ByteToHexOfParsed(l, 0);
    assert l[0..2] == l;
  }

  /**
    Every decodable colour, in either case, with or without `#` and alpha,
    encodes after decoding as its own digits lower-cased, with alpha "ff"
    when it had none: the colour survives decoding unchanged.
   */
  lemma HexToRgbaCanonical(h: string)
    requires IsHexColor(h)
    ensures var n, c := StripHash(h), HexToRgba(h);
            RgbaToHex(c.r, c.g, c.b, c.a) ==
              "#" + LowerHexString(n[..6]) + (if |n| >= 8 then LowerHexString(n[6..8]) else "ff")
  {
    var n, c := StripHash(h), HexToRgba(h);
    var alpha := if |n| >= 8 then LowerHexString(n[6..8]) else "ff";
    assert ByteToHex(c.a) == alpha by {
      if |n| >= 8 {
        ByteToHexOfPair(n, 6);
      } else {
        assert ByteToHex(255) == "ff";
      }
    }
    LowerHexColourDigits(n);
    RgbaToHexLayout(c.r, c.g, c.b, c.a);
  }

  /** The first three digit pairs of a colour print back as those six digits, lower-cased. */
  lemma LowerHexColourDigits(n: string)
    requires |n| >= 6 && forall i :: 0 <= i < 6 ==> IsHexDigit(n[i])
    ensures ByteToHex(ParseHexByte(n, 0)) + ByteToHex(ParseHexByte(n, 2)) + ByteToHex(ParseHexByte(n, 4))
            == LowerHexString(n[..6])
  {
    ByteToHexOfPair(n, 0);
    ByteToHexOfPair(n, 2);
    ByteToHexOfPair(n, 4);
    assert n[..6] == n[0..2] + n[2..4] + n[4..6];
    LowerHexStringAppend(n[0..2] + n[2..4], n[4..6]);
    LowerHexStringAppend(n[0..2], n[2..4]);
  }

  lemma RgbaToHexLayout(r: int, g: int, b: int, a: int)
    ensures RgbaToHex(r, g, b, a) == "#" + (ByteToHex(r) + ByteToHex(g) + ByteToHex(b)) + ByteToHex(a)
  {
    assert ByteToHex(r) + ByteToHex(g) + ByteToHex(b) + ByteToHex(a)
        == (ByteToHex(r) + ByteToHex(g) + ByteToHex(b)) + ByteToHex(a);
  }

  lemma LowerHexStringAppend(a: string, b: string)
    ensures LowerHexString(a + b) == LowerHexString(a) + LowerHexString(b)
  {
  }

  /** The documented examples and the store's default colours decode as intended. */
  lemma HexToRgbaExamples()
    ensures IsHexColor("#FF0000") && HexToRgba("#FF0000") == Rgba(255, 0, 0, 255)
    ensures IsHexColor("#FF0000FF") && HexToRgba("#FF0000FF") == Rgba(255, 0, 0, 255)
    ensures IsHexColor("#000000FF") && HexToRgba("#000000FF") == Rgba(0, 0, 0, 255)
    ensures IsHexColor("#FFFFFFFF") && HexToRgba("#FFFFFFFF") == Rgba(255, 255, 255, 255)
  {
    assert StripHash("#FF0000") == "FF0000";
    assert StripHash("#FF0000FF") == "FF0000FF";
    assert StripHash("#000000FF") == "000000FF";
    assert StripHash("#FFFFFFFF") == "FFFFFFFF";
  }

  /** Encoding after decoding gives back any canonical `#rrggbbaa` string. */
  lemma CanonicalHexRoundTrip(s: string)
    requires |s| == 9 && s[0] == '#'
    requires forall i :: 1 <= i < 9 ==> IsLowerHexDigit(s[i])
    ensures IsHexColor(s)
    ensures var c := HexToRgba(s); RgbaToHex(c.r, c.g, c.b, c.a) == s
  {
    var n := s[1..];
    assert StripHash(s) == n;
    assert IsHexColor(s);
    var c := HexToRgba(s);
    assert c == Rgba(ParseHexByte(n, 0), ParseHexByte(n, 2), ParseHexByte(n, 4), ParseHexByte(n, 6));
    var e := RgbaToHex(c.r, c.g, c.b, c.a);
    assert e == s by {
      ByteToHexOfParsed(n, 0);
      ByteToHexOfParsed(n, 2);
      ByteToHexOfParsed(n, 4);
      ByteToHexOfParsed(n, 6);
      assert e == "#" + ByteToHex(c.r) + ByteToHex(c.g) + ByteToHex(c.b) + ByteToHex(c.a);
      SplitPairs(n);
      assert s == "#" + n;
    }
  }

  lemma SplitPairs(n: string)
    requires |n| == 8
    ensures n == n[0..2] + n[2..4] + n[4..6] + n[6..8]
  {
    assert n[0..4] == n[0..2] + n[2..4];
    assert n[0..6] == n[0..4] + n[4..6];
    assert n == n[0..6] + n[6..8];
  }

  /** The leading `#` is optional: `hexToRgba` decodes `"#" + d` and `d` alike. */
  lemma HashOptional(d: string)
    requires '#' !in d
    requires IsHexColor(d)
    ensures IsHexColor("#" + d) && HexToRgba("#" + d) == HexToRgba(d)
  {
    assert StripHash("#" + d) == d;
  }
}
