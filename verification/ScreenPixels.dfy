/**
 * The drawing operations pixel by pixel: which bytes of which rows they set,
 * and to what (iokit/IOGraphicsFamily/fb.c:48-70, 228-345).
 */
module ScreenPixels {
  import opened Common
  import opened Screen

  // ---------------------------------------------------------------------- colours

  predicate Layout(m: Mode, rLoss: bv8, gLoss: bv8, bLoss: bv8, rShift: bv8, gShift: bv8, bShift: bv8) {
    && m.rLoss == rLoss && m.gLoss == gLoss && m.bLoss == bLoss
    && m.rShift == rShift && m.gShift == gShift && m.bShift == bShift
  }

  /** 0x00RRGGBB in the usual layouts: 5-6-5 and 5-5-5 bits, and 8-8-8 with red or blue on top. */
  lemma PackLayouts(m: Mode, color: bv32)
    requires m.Ok()
    ensures Layout(m, 3, 2, 3, 11, 5, 0) ==>
              Pack(m, color) == ((color >> 8) & 0xf800) | ((color >> 5) & 0x07e0) | ((color >> 3) & 0x001f)
    ensures Layout(m, 3, 3, 3, 10, 5, 0) ==>
              Pack(m, color) == ((color >> 9) & 0x7c00) | ((color >> 6) & 0x03e0) | ((color >> 3) & 0x001f)
    ensures Layout(m, 0, 0, 0, 16, 8, 0) ==> Pack(m, color) == color & 0xff_ffff
    ensures Layout(m, 0, 0, 0, 0, 8, 16) ==>
              Pack(m, color) == ((color >> 16) & 0xff) | (color & 0xff00) | ((color & 0xff) << 16)
  {}

  /** A pixel is its word's low bytes, least significant first. */
  lemma PixelByte(m: Mode, v: bv32, k: nat)
    requires m.Ok() && k < m.bytesPp
    ensures |PixelBytes(m, v)| == m.bytesPp
    ensures k == 0 ==> PixelBytes(m, v)[k] == (v & 0xff) as bv8
    ensures k == 1 ==> PixelBytes(m, v)[k] == ((v >> 8) & 0xff) as bv8
    ensures k == 2 ==> PixelBytes(m, v)[k] == ((v >> 16) & 0xff) as bv8
    ensures k == 3 ==> PixelBytes(m, v)[k] == ((v >> 24) & 0xff) as bv8
  {}

  // ---------------------------------------------------------------------- one row

  /** Byte `k` of pixel `p` of a row. */
  function Place(m: Mode, p: nat, k: nat): nat { p * m.bytesPp + k }

  lemma Within(m: Mode, p: nat, k: nat)
    requires m.Ok() && p < m.width && k < m.bytesPp
    ensures Place(m, p, k) < m.pitch
  {
    PixelFits(m, p);
  }

  lemma Before(m: Mode, p: nat, q: nat)
    requires p < q
    ensures p * m.bytesPp + m.bytesPp <= q * m.bytesPp
  {
    assert (p + 1) * m.bytesPp <= q * m.bytesPp;
  }

  /** Byte `k` of a pixel that holds the word `v`. */
  function Stored(m: Mode, v: bv32, k: nat): bv8
    requires m.Ok() && k < m.bytesPp
  {
    PixelByte(m, v, k);
    PixelBytes(m, v)[k]
  }

  /** Painting a pixel sets its bytes and no byte of another. */
  lemma PaintPixel(m: Mode, r: Row, x: nat, v: bv32, p: nat, k: nat)
    requires m.Ok() && m.RowOk(r) && x < m.width && p < m.width && k < m.bytesPp
    ensures Place(m, p, k) < m.pitch
    ensures Paint(m, r, x, v)[Place(m, p, k)] == if p == x then Stored(m, v, k) else r[Place(m, p, k)]
  {
    Within(m, p, k);
    PixelFits(m, x);
    PixelByte(m, v, 0);
    hide PixelBytes, Mode.Ok;
    if p < x {
      Before(m, p, x);
    } else if x < p {
      Before(m, x, p);
    }
  }

  /** A run of words sets the pixels it covers, in order. */
  lemma {:induction false} PaintAllPixel(m: Mode, r: Row, x: nat, vs: seq<bv32>, p: nat, k: nat)
    requires m.Ok() && m.RowOk(r) && x + |vs| <= m.width && p < m.width && k < m.bytesPp
    ensures Place(m, p, k) < m.pitch
    ensures PaintAll(m, r, x, vs)[Place(m, p, k)] ==
            if x <= p < x + |vs| then Stored(m, vs[p - x], k) else r[Place(m, p, k)]
    decreases |vs|
  {
    Within(m, p, k);
    hide Paint, Stored, Place, Mode.Ok;
    if vs != [] {
      PaintPixel(m, r, x, vs[0], p, k);
      PaintAllPixel(m, Paint(m, r, x, vs[0]), x + 1, vs[1..], p, k);
    }
  }

  // -------------------------------------------------------------------- the screen

  /** Byte `k` of pixel (p, q) on a screen. */
  function Pixel(m: Mode, s: seq<Row>, p: nat, q: nat, k: nat): bv8
    requires m.Ok() && m.ScreenOk(s) && p < m.width && q < m.height && k < m.bytesPp
  {
    Within(m, p, k);
    s[q][Place(m, p, k)]
  }

  /** Byte `k` of a pixel of the given colour. */
  function Shade(m: Mode, color: bv32, k: nat): bv8
    requires m.Ok() && k < m.bytesPp
  {
    Stored(m, Pack(m, color), k)
  }

  /** framebuffer_putpixel sets one pixel, or none off the screen. */
  lemma PutPixelAt(m: Mode, s: seq<Row>, x: nat, y: nat, color: bv32, p: nat, q: nat, k: nat)
    requires m.Ok() && m.ScreenOk(s) && p < m.width && q < m.height && k < m.bytesPp
    ensures Pixel(m, PutPixel(m, s, x, y, color), p, q, k) ==
            if p == x && q == y then Shade(m, color, k) else Pixel(m, s, p, q, k)
  {
    hide Pack, Stored, Paint, Mode.Ok;
    Within(m, p, k);
    if x < m.width && y < m.height {
      PaintPixel(m, s[y], x, Pack(m, color), p, k);
    }
  }

  lemma {:induction false} PutRowAt(m: Mode, s: seq<Row>, x: nat, y: nat, colors: seq<bv32>, p: nat, q: nat, k: nat)
    requires m.Ok() && m.ScreenOk(s) && p < m.width && q < m.height && k < m.bytesPp
    ensures Pixel(m, PutRow(m, s, x, y, colors), p, q, k) ==
            if x <= p < x + |colors| && q == y then Shade(m, colors[p - x], k) else Pixel(m, s, p, q, k)
    decreases |colors|
  {
    hide PutPixel, Shade, Pixel, Mode.Ok;
    if colors != [] {
      PutPixelAt(m, s, x, y, colors[0], p, q, k);
      PutRowAt(m, PutPixel(m, s, x, y, colors[0]), x + 1, y, colors[1..], p, q, k);
    }
  }

  /** framebuffer_fill_rect sets exactly the pixels of the rectangle that are on the screen. */
  lemma {:induction false} PutRectAt(m: Mode, s: seq<Row>, x: nat, y: nat, w: nat, h: nat, color: bv32, p: nat, q: nat,
      k: nat)
    requires m.Ok() && m.ScreenOk(s) && p < m.width && q < m.height && k < m.bytesPp
    ensures Pixel(m, PutRect(m, s, x, y, w, h, color), p, q, k) ==
            if x <= p < x + w && y <= q < y + h then Shade(m, color, k) else Pixel(m, s, p, q, k)
    decreases h
  {
    hide PutRow, Shade, Pixel, Mode.Ok;
    if h > 0 {
      PutRowAt(m, s, x, y, Repeat(color, w), p, q, k);
      PutRectAt(m, PutRow(m, s, x, y, Repeat(color, w)), x, y + 1, w, h - 1, color, p, q, k);
    }
  }

  /** framebuffer_putpixels: the colours' shades, or in the copied layout their bytes as they are. */
  lemma PutPixelsAt(m: Mode, s: seq<Row>, x: nat, y: nat, colors: seq<bv32>, p: nat, q: nat, k: nat)
    requires m.Ok() && m.ScreenOk(s) && p < m.width && q < m.height && k < m.bytesPp
    ensures Pixel(m, PutPixels(m, s, x, y, colors), p, q, k) ==
            if !(x <= p < x + |colors| && q == y) then Pixel(m, s, p, q, k)
            else if m.bytesPp == 4 && Layout(m, 0, 0, 0, 16, 8, 0) then Stored(m, colors[p - x], k)
            else Shade(m, colors[p - x], k)
  {
    hide Pack, Stored, Paint, PaintAll, Mode.Ok, Words, Layout;
    Within(m, p, k);
    if x < m.width && y < m.height {
      var shown := colors[..Min(|colors|, m.width - x)];
      PaintAllPixel(m, s[y], x, Words(m, shown), p, k);
      if x <= p < x + |shown| {
        WordOf(m, shown, p - x);
      }
    }
  }

  lemma WordOf(m: Mode, colors: seq<bv32>, i: nat)
    requires m.Ok() && i < |colors|
    ensures Words(m, colors)[i] ==
            if m.bytesPp == 4 && Layout(m, 0, 0, 0, 16, 8, 0) then colors[i] else Pack(m, colors[i])
  {
    hide Pack;
  }

  /** Scrolling moves every row up and blanks the rows that come in, byte for byte. */
  lemma ScrollRow(m: Mode, s: seq<Row>, lines: nat, y: nat, j: nat)
    requires m.ScreenOk(s) && y < m.height && j < m.pitch
    ensures Screen.ScrollUp(m, s, lines)[y][j] == if y + lines < m.height then s[y + lines][j] else 0
  {}
}
