// 3DS textures: 8x8 tiles in row major order, Morton order inside a tile
// (platform/3ds/source/cam_tile.c:28-126, platform/3ds/source/nds_icon.c:53-168).

module Tiling {
  import opened Arithmetic
  import opened Common

  // ------------------------------------------------------------- row major rectangles

  // A row major index below its rectangle's size.
  lemma RowMajorBound(row: nat, column: nat, rows: nat, columns: nat)
    requires row < rows && column < columns
    ensures 0 <= row * columns + column < rows * columns
  {
    assert (rows - 1 - row) * columns >= 0;
    assert rows * columns == row * columns + columns + (rows - 1 - row) * columns;
  }

  // A row major index is below the size only when its row is.
  lemma RowInside(i: nat, rows: nat, columns: nat)
    requires columns > 0 && i < rows * columns
    ensures i / columns < rows
  {
    var q := i / columns;
    assert i == columns * q + i % columns;
    assert q >= rows ==> columns * (q - rows) >= 0;
  }

  // ------------------------------------------------------------------- Morton order

  // morton8: the bits of x and y interleaved.
  function Morton8(x: nat, y: nat): (m: nat)
    requires x < 8 && y < 8
    ensures m < 64
  {
    x % 2 + 2 * (y % 2) + 4 * (x / 2 % 2) + 8 * (y / 2 % 2) + 16 * (x / 4) + 32 * (y / 4)
  }

  // The even bits and the odd bits of a place in a tile.
  function EvenBits(m: nat): (x: nat)
    requires m < 64
    ensures x < 8
  {
    m % 2 + 2 * (m / 4 % 2) + 4 * (m / 16 % 2)
  }

  function OddBits(m: nat): (y: nat)
    requires m < 64
    ensures y < 8
  {
    m / 2 % 2 + 2 * (m / 8 % 2) + 4 * (m / 32)
  }

  // Six bits put together, and taken apart again.
  lemma SixBits(b0: nat, b1: nat, b2: nat, b3: nat, b4: nat, b5: nat)
    requires b0 <= 1 && b1 <= 1 && b2 <= 1 && b3 <= 1 && b4 <= 1 && b5 <= 1
    ensures
      var m := b0 + 2 * b1 + 4 * b2 + 8 * b3 + 16 * b4 + 32 * b5;
      && m % 2 == b0 && m / 2 % 2 == b1 && m / 4 % 2 == b2 && m / 8 % 2 == b3 && m / 16 % 2 == b4 && m / 32 == b5
  {
    var m := b0 + 2 * b1 + 4 * b2 + 8 * b3 + 16 * b4 + 32 * b5;
    var h4 := b4 + 2 * b5;
    var h3 := b3 + 2 * h4;
    var h2 := b2 + 2 * h3;
    var h1 := b1 + 2 * h2;
    Divide(m, 2, h1, b0);
    Divide(m, 4, h2, b0 + 2 * b1);
    Divide(m, 8, h3, b0 + 2 * b1 + 4 * b2);
    Divide(m, 16, h4, b0 + 2 * b1 + 4 * b2 + 8 * b3);
    Divide(m, 32, b5, b0 + 2 * b1 + 4 * b2 + 8 * b3 + 16 * b4);
    Divide(h1, 2, h2, b1);
    Divide(h2, 2, h3, b2);
    Divide(h3, 2, h4, b3);
    Divide(h4, 2, b5, b4);
  }

  lemma ThreeBits(b0: nat, b1: nat, b2: nat)
    requires b0 <= 1 && b1 <= 1 && b2 <= 1
    ensures
      var n := b0 + 2 * b1 + 4 * b2;
      n % 2 == b0 && n / 2 % 2 == b1 && n / 4 == b2
  {
    SixBits(b0, b1, b2, 0, 0, 0);
  }

  lemma MortonOfPixel(x: nat, y: nat)
    requires x < 8 && y < 8
    ensures EvenBits(Morton8(x, y)) == x && OddBits(Morton8(x, y)) == y
  {
    ThreeParts(x);
    ThreeParts(y);
    SixBits(x % 2, y % 2, x / 2 % 2, y / 2 % 2, x / 4, y / 4);
  }

  lemma ThreeParts(x: nat)
    requires x < 8
    ensures x == x % 2 + 2 * (x / 2 % 2) + 4 * (x / 4)
    ensures x % 2 <= 1 && x / 2 % 2 <= 1 && x / 4 <= 1
  {
    assert x / 4 == x / 2 / 2;
  }

  lemma MortonOfPlace(m: nat)
    requires m < 64
    ensures Morton8(EvenBits(m), OddBits(m)) == m
  {
    ThreeBits(m % 2, m / 4 % 2, m / 16 % 2);
    ThreeBits(m / 2 % 2, m / 8 % 2, m / 32);
    HalvesOf(m);
  }

  lemma HalvesOf(m: nat)
    requires m < 64
    ensures m == m % 2 + 2 * (m / 2 % 2) + 4 * (m / 4 % 2) + 8 * (m / 8 % 2) + 16 * (m / 16 % 2) + 32 * (m / 32)
  {
    assert m / 4 == m / 2 / 2 && m / 8 == m / 4 / 2 && m / 16 == m / 8 / 2 && m / 32 == m / 16 / 2;
  }

  lemma MortonIsABijection(x: nat, y: nat, m: nat)
    requires x < 8 && y < 8 && m < 64
    ensures EvenBits(Morton8(x, y)) == x && OddBits(Morton8(x, y)) == y
    ensures Morton8(EvenBits(m), OddBits(m)) == m
  {
    hide EvenBits, OddBits, Morton8;
    MortonOfPixel(x, y);
    MortonOfPlace(m);
  }

  // -------------------------------------------------------------------- tiled images

  predicate TiledSize(w: nat, h: nat) { w > 0 && w % 8 == 0 && h % 8 == 0 }

  // daemoon_3ds_tile_index
  function TileIndex(x: nat, y: nat, w: nat): nat {
    (y / 8 * (w / 8) + x / 8) * 64 + Morton8(x % 8, y % 8)
  }

  // The pixel a place in the image belongs to.
  function PixelX(i: nat, w: nat): nat
    requires w >= 8
  {
    i / 64 % (w / 8) * 8 + EvenBits(i % 64)
  }

  function PixelY(i: nat, w: nat): nat
    requires w >= 8
  {
    i / 64 / (w / 8) * 8 + OddBits(i % 64)
  }

  lemma Area(w: nat, h: nat)
    requires TiledSize(w, h)
    ensures w * h == 64 * ((h / 8) * (w / 8))
  {
    var ta, th := w / 8, h / 8;
    assert w == 8 * ta && h == 8 * th;
  }

  // Every pixel has a place of its own inside the image.
  lemma PixelHasPlace(x: nat, y: nat, w: nat, h: nat)
    requires TiledSize(w, h) && x < w && y < h
    ensures TileIndex(x, y, w) < w * h
    ensures PixelX(TileIndex(x, y, w), w) == x && PixelY(TileIndex(x, y, w), w) == y
  {
    hide EvenBits, OddBits, Morton8;
    var ta, th, m := w / 8, h / 8, Morton8(x % 8, y % 8);
    var tile := y / 8 * ta + x / 8;
    Area(w, h);
    RowMajorBound(y / 8, x / 8, th, ta);
    Divide(TileIndex(x, y, w), 64, tile, m);
    Divide(tile, ta, y / 8, x / 8);
    MortonOfPixel(x % 8, y % 8);
  }

  // Every place in the image is the place of a pixel.
  lemma PlaceHasPixel(i: nat, w: nat, h: nat)
    requires TiledSize(w, h) && i < w * h
    ensures PixelX(i, w) < w && PixelY(i, w) < h
    ensures TileIndex(PixelX(i, w), PixelY(i, w), w) == i
  {
    hide EvenBits, OddBits, Morton8;
    var ta, th := w / 8, h / 8;
    Area(w, h);
    var tile, m := i / 64, i % 64;
    RowInside(tile, th, ta);
    Divide(PixelX(i, w), 8, tile % ta, EvenBits(m));
    Divide(PixelY(i, w), 8, tile / ta, OddBits(m));
    MortonOfPlace(m);
    assert tile == tile / ta * ta + tile % ta;
  }

  // So the index is a bijection from the pixels onto the places.
  lemma TileIndexIsABijection(w: nat, h: nat)
    requires TiledSize(w, h)
    ensures forall x: nat, y: nat :: x < w && y < h ==> TileIndex(x, y, w) < w * h
    ensures forall x: nat, y: nat, u: nat, v: nat ::
              x < w && y < h && u < w && v < h && TileIndex(x, y, w) == TileIndex(u, v, w) ==> x == u && y == v
    ensures forall i: nat :: i < w * h ==>
              PixelX(i, w) < w && PixelY(i, w) < h && TileIndex(PixelX(i, w), PixelY(i, w), w) == i
  {
    assert w >= 8;
    hide TileIndex, PixelX, PixelY;
    forall x: nat, y: nat | x < w && y < h
      ensures TileIndex(x, y, w) < w * h
      ensures PixelX(TileIndex(x, y, w), w) == x && PixelY(TileIndex(x, y, w), w) == y
    {
      PixelHasPlace(x, y, w, h);
    }
    forall i: nat | i < w * h
      ensures PixelX(i, w) < w && PixelY(i, w) < h && TileIndex(PixelX(i, w), PixelY(i, w), w) == i
    {
      PlaceHasPixel(i, w, h);
    }
  }

  // ----------------------------------------------------------------- camera frames

  function RowMajor(row: nat, column: nat, columns: nat): nat { row * columns + column }

  lemma RowMajorIsABijection(row: nat, column: nat, rows: nat, columns: nat, j: nat)
    requires row < rows && column < columns && j < rows * columns
    ensures RowMajor(row, column, columns) < rows * columns
    ensures RowMajor(row, column, columns) / columns == row && RowMajor(row, column, columns) % columns == column
    ensures j / columns < rows && RowMajor(j / columns, j % columns, columns) == j
  {
    RowMajorBound(row, column, rows, columns);
    Divide(row * columns + column, columns, row, column);
    RowInside(j, rows, columns);
    assert j == columns * (j / columns) + j % columns;
  }

  // daemoon_3ds_cam_index_as
  function CamIndex(x: nat, y: nat, w: nat, h: nat, layout: int): (j: nat)
    requires x < w && y < h
  {
    if layout == 1 then RowMajor(x, h - 1 - y, h)
    else if layout == 2 then RowMajor(y, x, w)
    else if layout == 3 then RowMajor(h - 1 - y, x, w)
    else RowMajor(x, y, h)
  }

  // The pixel a place in the frame holds.
  function CamPixel(j: nat, w: nat, h: nat, layout: int): (p: (nat, nat))
    requires w > 0 && h > 0 && j < w * h
  {
    RowInside(j, h, w);
    if layout == 1 then (j / h, h - 1 - j % h)
    else if layout == 2 then (j % w, j / w)
    else if layout == 3 then (j % w, h - 1 - j / w)
    else (j / h, j % h)
  }

  lemma CamIndexInside(x: nat, y: nat, w: nat, h: nat, layout: int)
    requires x < w && y < h
    ensures CamIndex(x, y, w, h, layout) < w * h
  {
    assert w * h == h * w;
    RowMajorBound(x, h - 1 - y, w, h);
    RowMajorBound(y, x, h, w);
    RowMajorBound(h - 1 - y, x, h, w);
    RowMajorBound(x, y, w, h);
  }

  // Under each of the layouts every pixel has its own place in the frame and every place a
  // pixel.
  lemma CamIndexIsABijection(x: nat, y: nat, j: nat, w: nat, h: nat, layout: int)
    requires x < w && y < h && j < w * h
    ensures CamIndex(x, y, w, h, layout) < w * h
    ensures CamPixel(CamIndex(x, y, w, h, layout), w, h, layout) == (x, y)
    ensures CamPixel(j, w, h, layout).0 < w && CamPixel(j, w, h, layout).1 < h
    ensures CamIndex(CamPixel(j, w, h, layout).0, CamPixel(j, w, h, layout).1, w, h, layout) == j
  {
    hide RowMajor;
    assert w * h == h * w;
    if layout == 1 {
      RowMajorIsABijection(x, h - 1 - y, w, h, j);
    } else if layout == 2 {
      RowMajorIsABijection(y, x, h, w, j);
    } else if layout == 3 {
      RowMajorIsABijection(h - 1 - y, x, h, w, j);
    } else {
      RowMajorIsABijection(x, y, w, h, j);
    }
  }

  type Pixel = x: int | 0 <= x < 0x1_0000

  // What the texture holds at place i: the pixel of the frame that belongs there, or zero.
  function TiledPixel(frame: seq<Pixel>, camW: nat, camH: nat, i: nat, texW: nat, layout: int): Pixel
    requires |frame| == camW * camH && texW >= 8
  {
    var x, y := PixelX(i, texW), PixelY(i, texW);
    if x < camW && y < camH then
      CamIndexInside(x, y, camW, camH, layout);
      frame[CamIndex(x, y, camW, camH, layout)]
    else 0
  }

  // Place i is already written when its pixel comes before (x, y) in the order of the loops.
  ghost predicate Reached(i: nat, texW: nat, x: nat, y: nat)
    requires texW >= 8
  {
    PixelY(i, texW) < y || (PixelY(i, texW) == y && PixelX(i, texW) < x)
  }

  // The texture when the loops have come to (x, y).
  ghost predicate TiledSoFar(tex: seq<Pixel>, frame: seq<Pixel>, camW: nat, camH: nat, texW: nat, layout: int, x: nat, y: nat)
    requires |frame| == camW * camH && texW >= 8
  {
    forall i :: 0 <= i < |tex| ==>
      tex[i] == if Reached(i, texW, x, y) then TiledPixel(frame, camW, camH, i, texW, layout) else 0
  }

  lemma NothingTiled(tex: seq<Pixel>, frame: seq<Pixel>, camW: nat, camH: nat, texW: nat, layout: int)
    requires |frame| == camW * camH && texW >= 8 && forall i :: 0 <= i < |tex| ==> tex[i] == 0
    ensures TiledSoFar(tex, frame, camW, camH, texW, layout, 0, 0)
  {
  }

  // Writing one pixel moves the loops on by one.
  lemma OneMoreTiled(tex: seq<Pixel>, frame: seq<Pixel>, camW: nat, camH: nat, texW: nat, texH: nat, layout: int, x: nat, y: nat)
    requires |frame| == camW * camH && TiledSize(texW, texH) && |tex| == texW * texH
    requires x < camW && x < texW && y < camH && y < texH
    requires TiledSoFar(tex, frame, camW, camH, texW, layout, x, y)
    ensures TileIndex(x, y, texW) < |tex| && CamIndex(x, y, camW, camH, layout) < |frame|
    ensures TiledSoFar(tex[TileIndex(x, y, texW) := frame[CamIndex(x, y, camW, camH, layout)]],
                       frame, camW, camH, texW, layout, x + 1, y)
  {
    hide TileIndex, PixelX, PixelY, CamIndex;
    PixelHasPlace(x, y, texW, texH);
    CamIndexIsABijection(x, y, 0, camW, camH, layout);
    var at := TileIndex(x, y, texW);
    var next := tex[at := frame[CamIndex(x, y, camW, camH, layout)]];
    forall i | 0 <= i < |next|
      ensures next[i] == if Reached(i, texW, x + 1, y) then TiledPixel(frame, camW, camH, i, texW, layout) else 0
    {
      PlaceHasPixel(i, texW, texH);
    }
  }

  // At a row's end the loops go on with the next row.
  lemma RowTiled(tex: seq<Pixel>, frame: seq<Pixel>, camW: nat, camH: nat, texW: nat, texH: nat, layout: int, x: nat, y: nat)
    requires |frame| == camW * camH && TiledSize(texW, texH) && |tex| == texW * texH && (x >= camW || x >= texW)
    requires TiledSoFar(tex, frame, camW, camH, texW, layout, x, y)
    ensures TiledSoFar(tex, frame, camW, camH, texW, layout, 0, y + 1)
  {
    hide TileIndex, PixelX, PixelY, CamIndex;
    forall i | 0 <= i < |tex|
      ensures tex[i] == if Reached(i, texW, 0, y + 1) then TiledPixel(frame, camW, camH, i, texW, layout) else 0
    {
      PlaceHasPixel(i, texW, texH);
    }
  }

  lemma AllTiled(tex: seq<Pixel>, frame: seq<Pixel>, camW: nat, camH: nat, texW: nat, texH: nat, layout: int, y: nat)
    requires |frame| == camW * camH && TiledSize(texW, texH) && |tex| == texW * texH && (y >= camH || y >= texH)
    requires TiledSoFar(tex, frame, camW, camH, texW, layout, 0, y)
    ensures forall i :: 0 <= i < |tex| ==> tex[i] == TiledPixel(frame, camW, camH, i, texW, layout)
  {
    hide TileIndex, PixelX, PixelY, CamIndex;
    forall i | 0 <= i < |tex|
      ensures tex[i] == TiledPixel(frame, camW, camH, i, texW, layout)
    {
      PlaceHasPixel(i, texW, texH);
    }
  }

  // daemoon_3ds_cam_to_tiled
  method CamToTiled(frame: array<Pixel>, camW: nat, camH: nat, tex: array<Pixel>, texW: nat, texH: nat, layout: int)
    requires frame != tex && frame.Length == camW * camH && tex.Length == texW * texH && TiledSize(texW, texH)
    modifies tex
    ensures forall i :: 0 <= i < tex.Length ==> tex[i] == TiledPixel(frame[..], camW, camH, i, texW, layout)
  {
    hide TileIndex, CamIndex, TiledPixel, Reached, TiledSoFar;
    Clear(tex, 0);
    ghost var source := frame[..];
    NothingTiled(tex[..], source, camW, camH, texW, layout);
    var y := 0;
    while y < camH && y < texH
      invariant frame[..] == source
      invariant TiledSoFar(tex[..], source, camW, camH, texW, layout, 0, y)
    {
      var x := 0;
      while x < camW && x < texW
        invariant frame[..] == source
        invariant TiledSoFar(tex[..], source, camW, camH, texW, layout, x, y)
      {
        OneMoreTiled(tex[..], source, camW, camH, texW, texH, layout, x, y);
        ghost var before := tex[..];
        tex[TileIndex(x, y, texW)] := frame[CamIndex(x, y, camW, camH, layout)];
        assert tex[..] == before[TileIndex(x, y, texW) := source[CamIndex(x, y, camW, camH, layout)]];
        x := x + 1;
      }
      RowTiled(tex[..], source, camW, camH, texW, texH, layout, x, y);
      y := y + 1;
    }
    AllTiled(tex[..], source, camW, camH, texW, texH, layout, y);
  }

  // memset, or a loop that fills.
  method Clear(a: array<Pixel>, v: Pixel)
    modifies a
    ensures forall i :: 0 <= i < a.Length ==> a[i] == v
  {
    var i := 0;
    while i < a.Length
      invariant 0 <= i <= a.Length && forall j :: 0 <= j < i ==> a[j] == v
    {
      a[i] := v;
      i := i + 1;
    }
  }

  // Place k of the texture shows place j of the frame.
  ghost predicate Shows(k: nat, j: nat, camW: nat, camH: nat, texW: nat, layout: int)
    requires texW >= 8
  {
    && PixelX(k, texW) < camW && PixelY(k, texW) < camH
    && CamIndex(PixelX(k, texW), PixelY(k, texW), camW, camH, layout) == j
  }

  // A frame that fits loses nothing: each of its places shows at exactly one place of the
  // texture, the place of its own pixel.
  lemma FittingFrameIsShown(frame: seq<Pixel>, camW: nat, camH: nat, texW: nat, texH: nat, layout: int, j: nat)
    requires |frame| == camW * camH && TiledSize(texW, texH) && camW <= texW && camH <= texH && j < |frame|
    requires camW > 0 && camH > 0
    ensures
      var p := CamPixel(j, camW, camH, layout);
      var i := TileIndex(p.0, p.1, texW);
      && i < texW * texH && TiledPixel(frame, camW, camH, i, texW, layout) == frame[j]
      && forall k: nat :: k < texW * texH ==> (Shows(k, j, camW, camH, texW, layout) <==> k == i)
  {
    hide TileIndex, PixelX, PixelY, CamIndex, CamPixel;
    CamIndexIsABijection(0, 0, j, camW, camH, layout);
    var p := CamPixel(j, camW, camH, layout);
    PixelHasPlace(p.0, p.1, texW, texH);
    forall k: nat | k < texW * texH && Shows(k, j, camW, camH, texW, layout)
      ensures k == TileIndex(p.0, p.1, texW)
    {
      PlaceHasPixel(k, texW, texH);
      CamIndexIsABijection(PixelX(k, texW), PixelY(k, texW), j, camW, camH, layout);
    }
  }

  // ------------------------------------------------------------------- DS icons

  const ICON: nat := 48
  const NDS_ICON: nat := 32
  const INSET: nat := 8
  const PALETTE_AT: nat := 0x220
  const BITMAP_AT: nat := 0x20
  const BANNER_BYTES: nat := 0x240

  // The colour of an empty tile, PANEL_RGB565.
  const PANEL: Pixel := 4 * 0x800 + 10 * 0x20 + 6

  // bgr555_to_rgb565: green grows from five bits to six by repeating its top bit.
  function Rgb565(v: Pixel): Pixel {
    var r, g, b := v % 0x20, v / 0x20 % 0x20, v / 0x400 % 0x20;
    r * 0x800 + Wide(g) * 0x20 + b
  }

  lemma Fields565(r: nat, g: nat, b: nat, s: nat, h: nat, c: nat)
    requires g < 0x40 && h < 0x40 && b < 0x20 && c < 0x20
    requires r * 0x800 + g * 0x20 + b == s * 0x800 + h * 0x20 + c
    ensures r == s && g == h && b == c
  {
    assert r - s == 0 by {
      assert 0x800 * (r - s) == (h - g) * 0x20 + (c - b);
    }
  }

  lemma GreenStaysDifferent(g: nat, h: nat)
    requires g < 0x20 && h < 0x20 && 2 * g + g / 0x10 == 2 * h + h / 0x10
    ensures g == h
  {
  }

  function Wide(g: nat): (w: nat)
    requires g < 0x20
    ensures w < 0x40
  {
    2 * g + g / 0x10
  }

  lemma SameFields(r: nat, g: nat, b: nat, s: nat, h: nat, c: nat)
    requires g < 0x20 && h < 0x20 && b < 0x20 && c < 0x20
    requires r * 0x800 + Wide(g) * 0x20 + b == s * 0x800 + Wide(h) * 0x20 + c
    ensures r == s && g == h && b == c
  {
    Fields565(r, Wide(g), b, s, Wide(h), c);
    GreenStaysDifferent(g, h);
  }

  // No two colours of the fifteen bits become one.
  lemma ColoursStayDifferent(v: Pixel, w: Pixel)
    requires v < 0x8000 && w < 0x8000
    ensures Rgb565(v) == Rgb565(w) <==> v == w
  {
    hide Wide;
    if Rgb565(v) == Rgb565(w) {
      SameFields(v % 0x20, v / 0x20 % 0x20, v / 0x400 % 0x20, w % 0x20, w / 0x20 % 0x20, w / 0x400 % 0x20);
      FiveBitFields(v);
      FiveBitFields(w);
    }
  }

  lemma FiveBitFields(v: Pixel)
    requires v < 0x8000
    ensures v == v % 0x20 + 0x20 * (v / 0x20 % 0x20) + 0x400 * (v / 0x400 % 0x20)
  {
    assert v / 0x400 == v / 0x20 / 0x20;
  }

  // The place of a pixel in the DS bitmap, in half bytes: tiles and the rows inside them in
  // row major order.
  function Nibble(x: nat, y: nat): (n: nat)
    requires x < NDS_ICON && y < NDS_ICON
    ensures n < NDS_ICON * NDS_ICON
  {
    assert y / 8 <= 3 && x / 8 <= 3 && y % 8 <= 7 && x % 8 <= 7;
    (y / 8 * 4 + x / 8) * 64 + y % 8 * 8 + x % 8
  }

  lemma NibblesAreUsedOnce(x: nat, y: nat, u: nat, v: nat)
    requires x < NDS_ICON && y < NDS_ICON && u < NDS_ICON && v < NDS_ICON && Nibble(x, y) == Nibble(u, v)
    ensures x == u && y == v
  {
    Divide(Nibble(x, y), 64, y / 8 * 4 + x / 8, y % 8 * 8 + x % 8);
    Divide(Nibble(u, v), 64, v / 8 * 4 + u / 8, v % 8 * 8 + u % 8);
    Divide(y / 8 * 4 + x / 8, 4, y / 8, x / 8);
    Divide(v / 8 * 4 + u / 8, 4, v / 8, u / 8);
    Divide(y % 8 * 8 + x % 8, 8, y % 8, x % 8);
    Divide(v % 8 * 8 + u % 8, 8, v % 8, u % 8);
  }

  type Banner = b: seq<Byte> | |b| == BANNER_BYTES witness seq(BANNER_BYTES, _ => 0)

  // nds_pixel: the low half of a byte comes first.
  function NdsPixel(banner: Banner, x: nat, y: nat): (c: nat)
    requires x < NDS_ICON && y < NDS_ICON
    ensures c < 16
  {
    var n := Nibble(x, y);
    if n % 2 == 1 then banner[BITMAP_AT + n / 2] / 16 else banner[BITMAP_AT + n / 2] % 16
  }

  function PaletteColour(banner: Banner, c: nat): Pixel
    requires c < 16
  {
    Rgb565(banner[PALETTE_AT + 2 * c] as int + 0x100 * banner[PALETTE_AT + 2 * c + 1] as int)
  }

  predicate InIcon(x: nat, y: nat) {
    INSET <= x < INSET + NDS_ICON && INSET <= y < INSET + NDS_ICON
  }

  // What the finished tile holds at place i: the icon in the middle, transparent pixels and
  // the border in the panel's colour.
  function IconPixel(banner: Banner, i: nat): Pixel {
    var x, y := PixelX(i, ICON), PixelY(i, ICON);
    if !InIcon(x, y) then PANEL
    else
      var c := NdsPixel(banner, x - INSET, y - INSET);
      if c == 0 then PANEL else PaletteColour(banner, c)
  }

  ghost predicate IconSoFar(dst: seq<Pixel>, banner: Banner, x: nat, y: nat) {
    forall i :: 0 <= i < |dst| ==>
      dst[i] == if Reached(i, ICON, x + INSET, y + INSET) then IconPixel(banner, i) else PANEL
  }

  lemma OneMoreIconPixel(dst: seq<Pixel>, banner: Banner, x: nat, y: nat)
    requires |dst| == ICON * ICON && x < NDS_ICON && y < NDS_ICON && IconSoFar(dst, banner, x, y)
    ensures TileIndex(x + INSET, y + INSET, ICON) < |dst|
    ensures
      var c := NdsPixel(banner, x, y);
      IconSoFar(dst[TileIndex(x + INSET, y + INSET, ICON) := if c == 0 then PANEL else PaletteColour(banner, c)],
                banner, x + 1, y)
  {
    hide TileIndex, PixelX, PixelY, NdsPixel, PaletteColour;
    PixelHasPlace(x + INSET, y + INSET, ICON, ICON);
    forall i | 0 <= i < |dst|
      ensures i == TileIndex(x + INSET, y + INSET, ICON) <==> PixelX(i, ICON) == x + INSET && PixelY(i, ICON) == y + INSET
    {
      PlaceHasPixel(i, ICON, ICON);
    }
  }

  lemma IconRowDone(dst: seq<Pixel>, banner: Banner, y: nat)
    requires IconSoFar(dst, banner, NDS_ICON, y)
    ensures IconSoFar(dst, banner, 0, y + 1)
  {
    hide PixelX, PixelY, NdsPixel, PaletteColour;
  }

  lemma IconStarts(dst: seq<Pixel>, banner: Banner)
    requires forall i :: 0 <= i < |dst| ==> dst[i] == PANEL
    ensures IconSoFar(dst, banner, 0, 0)
  {
    hide PixelX, PixelY, NdsPixel, PaletteColour;
  }

  lemma IconDone(dst: seq<Pixel>, banner: Banner)
    requires IconSoFar(dst, banner, 0, NDS_ICON)
    ensures forall i :: 0 <= i < |dst| ==> dst[i] == IconPixel(banner, i)
  {
    hide PixelX, PixelY, NdsPixel, PaletteColour;
  }

  // daemoon_3ds_nds_icon_read, from the banner on.
  method ConvertIcon(banner: Banner, dst: array<Pixel>)
    requires dst.Length == ICON * ICON
    modifies dst
    ensures forall i :: 0 <= i < dst.Length ==> dst[i] == IconPixel(banner, i)
  {
    hide TileIndex, NdsPixel, PaletteColour, IconPixel, IconSoFar;
    var palette := ReadPalette(banner);
    Clear(dst, PANEL);
    IconStarts(dst[..], banner);
    var y := 0;
    while y < NDS_ICON
      modifies dst
      invariant 0 <= y <= NDS_ICON && IconSoFar(dst[..], banner, 0, y)
    {
      var x := 0;
      while x < NDS_ICON
        modifies dst
        invariant 0 <= x <= NDS_ICON && IconSoFar(dst[..], banner, x, y)
      {
        OneMoreIconPixel(dst[..], banner, x, y);
        ghost var before := dst[..];
        var c := NdsPixel(banner, x, y);
        var colour := if c == 0 then PANEL else palette[c];
        assert colour == if c == 0 then PANEL else PaletteColour(banner, c);
        dst[TileIndex(x + INSET, y + INSET, ICON)] := colour;
        assert dst[..] == before[TileIndex(x + INSET, y + INSET, ICON) := colour];
        x := x + 1;
      }
      IconRowDone(dst[..], banner, y);
      y := y + 1;
    }
    IconDone(dst[..], banner);
  }

  method ReadPalette(banner: Banner) returns (palette: array<Pixel>)
    ensures fresh(palette) && palette.Length == 16
    ensures forall c :: 0 <= c < 16 ==> palette[c] == PaletteColour(banner, c)
  {
    hide Rgb565;
    palette := new Pixel[16](_ => 0);
    var i := 0;
    while i < 16
      invariant 0 <= i <= 16 && forall c :: 0 <= c < i ==> palette[c] == PaletteColour(banner, c)
    {
      palette[i] := Rgb565(banner[PALETTE_AT + 2 * i] as int + 0x100 * banner[PALETTE_AT + 2 * i + 1] as int);
      i := i + 1;
    }
  }
}
