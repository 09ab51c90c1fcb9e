// The texture layouts told by their neighbours instead of by formulas: where the next pixel
// lies, which bits of a colour are which, which byte holds which two pixels
// (platform/3ds/source/cam_tile.c:28-110, platform/3ds/source/nds_icon.c:40-168).

module TextureFormat {
  import opened Arithmetic
  import opened Common
  import opened Tiling

  function Low(x: nat): nat { x % 2 }

  function Middle(x: nat): nat { x / 2 % 2 }

  function High(x: nat): nat { x / 4 }

  lemma BitsShift(x: nat, low: nat)
    requires x < 4 && low < 2
    ensures Low(2 * x + low) == low && Middle(2 * x + low) == Low(x) && High(2 * x + low) == Middle(x) && High(x) == 0
  {
    Divide(2 * x + low, 2, x, low);
    assert (2 * x + low) / 4 == x / 2;
  }

  lemma Spelled(x: nat, y: nat)
    requires x < 8 && y < 8
    ensures Morton8(x, y) == Low(x) + 2 * Low(y) + 4 * Middle(x) + 8 * Middle(y) + 16 * High(x) + 32 * High(y)
  {
  }

  predicate MortonPlace(x: nat, y: nat, m: nat) { x < 8 && y < 8 && Morton8(x, y) == m }

  // Morton order without the bits: each of four quarters, left before right and upper before
  // lower, again in Morton order, down to single pixels.
  lemma MortonQuarters(x: nat, y: nat, m: nat, right: nat, lower: nat, u: nat, v: nat, n: nat)
    requires right < 2 && lower < 2
    requires u == 2 * x + right < 8 && v == 2 * y + lower < 8 && n == 4 * m + right + 2 * lower
    requires MortonPlace(x, y, m)
    ensures MortonPlace(0, 0, 0) && MortonPlace(u, v, n)
  {
    hide Morton8, Low, Middle, High;
    BitsShift(x, right);
    BitsShift(y, lower);
    BitsShift(0, 0);
    Spelled(x, y);
    Spelled(u, v);
    Spelled(0, 0);
  }

  // Tiles of 64 places from left to right, a row of them eight lines high.
  lemma NextTile(x: nat, y: nat, w: nat)
    requires w % 8 == 0
    ensures x < 8 && y < 8 ==> TileIndex(x, y, w) == Morton8(x, y)
    ensures TileIndex(x + 8, y, w) == TileIndex(x, y, w) + 64
    ensures TileIndex(x, y + 8, w) == TileIndex(x, y, w) + 8 * w
  {
    hide Morton8;
    assert (x + 8) / 8 == x / 8 + 1 && (x + 8) % 8 == x % 8;
    assert (y + 8) / 8 == y / 8 + 1 && (y + 8) % 8 == y % 8;
    assert (y / 8 + 1) * (w / 8) == y / 8 * (w / 8) + w / 8;
  }

  // Layout 0 counts columns from the top left, 1 columns from the bottom left, 2 rows from
  // the top, 3 rows from the bottom.
  lemma NextFramePixel(x: nat, y: nat, w: nat, h: nat)
    requires x < w && y < h
    ensures CamIndex(0, 0, w, h, 0) == CamIndex(0, h - 1, w, h, 1) == CamIndex(0, 0, w, h, 2) == CamIndex(0, h - 1, w, h, 3) == 0
    ensures y + 1 < h ==> CamIndex(x, y + 1, w, h, 0) == CamIndex(x, y, w, h, 0) + 1
    ensures x + 1 < w ==> CamIndex(x + 1, y, w, h, 0) == CamIndex(x, y, w, h, 0) + h
    ensures y + 1 < h ==> CamIndex(x, y + 1, w, h, 1) == CamIndex(x, y, w, h, 1) - 1
    ensures x + 1 < w ==> CamIndex(x + 1, y, w, h, 1) == CamIndex(x, y, w, h, 1) + h
    ensures x + 1 < w ==> CamIndex(x + 1, y, w, h, 2) == CamIndex(x, y, w, h, 2) + 1
    ensures y + 1 < h ==> CamIndex(x, y + 1, w, h, 2) == CamIndex(x, y, w, h, 2) + w
    ensures x + 1 < w ==> CamIndex(x + 1, y, w, h, 3) == CamIndex(x, y, w, h, 3) + 1
    ensures y + 1 < h ==> CamIndex(x, y + 1, w, h, 3) == CamIndex(x, y, w, h, 3) - w
  {
    assert (x + 1) * h == x * h + h && (y + 1) * w == y * w + w;
    assert (h - 1 - y) * w == (h - 1 - (y + 1)) * w + w;
  }

  // Any other number means layout 0.
  lemma OtherLayouts(x: nat, y: nat, w: nat, h: nat, layout: int)
    requires x < w && y < h && layout !in {1, 2, 3}
    ensures CamIndex(x, y, w, h, layout) == CamIndex(x, y, w, h, 0)
  {
  }

  // What a colour of the DS becomes: red from the lowest five bits goes to the highest, blue
  // the other way, and full green stays full green.
  lemma ColourFields(r: nat, g: nat, b: nat, top: nat)
    requires r < 32 && g < 32 && b < 32 && top < 2
    ensures
      var c: int := Rgb565(0x8000 * top + 0x400 * b + 0x20 * g + r);
      && c / 0x800 == r && c % 0x20 == b
      && c / 0x20 % 0x40 / 2 == g && (c / 0x20 % 2 == 1 <==> g >= 16)
    ensures Rgb565(0x001F) == 0xF800 && Rgb565(0x03E0) == 0x07E0 && Rgb565(0x7C00) == 0x001F
  {
    var v := 0x8000 * top + 0x400 * b + 0x20 * g + r;
    var upper := 0x20 * top + b;
    Divide(v, 0x20, 0x20 * upper + g, r);
    Divide(v, 0x400, upper, 0x20 * g + r);
    Divide(0x20 * upper + g, 0x20, upper, g);
    Divide(upper, 0x20, top, b);
    var wide := 2 * g + g / 16;
    Divide(r * 0x800 + wide * 0x20 + b, 0x800, r, wide * 0x20 + b);
    Divide(r * 0x800 + wide * 0x20 + b, 0x20, r * 0x40 + wide, b);
    Divide(r * 0x40 + wide, 0x40, r, wide);
    assert wide / 2 == g && (wide % 2 == 1 <==> g >= 16);
    assert (r * 0x40 + wide) % 2 == wide % 2;
  }

  // Byte k of the bitmap holds two neighbouring pixels of one line of one tile, the left one
  // in its low half.
  lemma BitmapByte(banner: Banner, tileX: nat, tileY: nat, line: nat, pair: nat)
    requires tileX < 4 && tileY < 4 && line < 8 && pair < 4
    ensures
      var x, y := 8 * tileX + 2 * pair, 8 * tileY + line;
      banner[0x20 + 32 * (4 * tileY + tileX) + 4 * line + pair] == NdsPixel(banner, x, y) + 16 * NdsPixel(banner, x + 1, y)
  {
    var x, y := 8 * tileX + 2 * pair, 8 * tileY + line;
    Divide(x, 8, tileX, 2 * pair);
    Divide(x + 1, 8, tileX, 2 * pair + 1);
    Divide(y, 8, tileY, line);
    var k := 32 * (4 * tileY + tileX) + 4 * line + pair;
    assert Nibble(x, y) == 2 * k && Nibble(x + 1, y) == 2 * k + 1;
    Divide(2 * k, 2, k, 0);
    Divide(2 * k + 1, 2, k, 1);
    var byte: int := banner[0x20 + k];
    assert byte == byte % 16 + 16 * (byte / 16);
  }

  // A palette entry, least significant byte first.
  lemma PaletteEntry(banner: Banner, c: nat, low: Byte, high: Byte)
    requires c < 16 && banner[0x220 + 2 * c] == low && banner[0x221 + 2 * c] == high
    ensures PaletteColour(banner, c) == Rgb565(low as int + 256 * high as int)
  {
  }

  // The finished tile, pixel by pixel: eight pixels of panel colour all around, the icon in
  // the middle, and colour 0 as transparent.
  lemma IconIsFramed(banner: Banner, x: nat, y: nat)
    requires x < 48 && y < 48
    ensures TileIndex(x, y, 48) < 48 * 48
    ensures
      var shown := IconPixel(banner, TileIndex(x, y, 48));
      if x < 8 || x >= 40 || y < 8 || y >= 40 then shown == 0x2146
      else
        var c := NdsPixel(banner, x - 8, y - 8);
        shown == if c == 0 then 0x2146 else PaletteColour(banner, c)
  {
    hide TileIndex, PixelX, PixelY, NdsPixel, PaletteColour;
    PixelHasPlace(x, y, ICON, ICON);
  }
}
