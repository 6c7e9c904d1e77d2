/**
 * The screen as callers see it (iokit/IOGraphicsFamily/fb.c): rows of bytes,
 * and the drawing operations on them without any back buffer.
 */
module Screen {
  import opened Common

  type Row = seq<bv8>

  /** Geometry and pixel layout, fixed by framebuffer_init. */
  datatype Mode = Mode(width: nat, height: nat, pitch: nat, bytesPp: nat,
                       rLoss: bv8, gLoss: bv8, bLoss: bv8, rShift: bv8, gShift: bv8, bShift: bv8)
  {
    /** A mode of 8 to 32 bits whose rows hold their pixels (whole words at 32 bits), with shifts inside a word. */
    predicate Ok() {
      && width > 0 && height > 0 && 1 <= bytesPp <= 4 && width * bytesPp <= pitch && (bytesPp == 4 ==> pitch % 4 == 0)
      && rLoss <= 8 && gLoss <= 8 && bLoss <= 8 && rShift < 32 && gShift < 32 && bShift < 32
    }

    predicate RowOk(r: Row) { |r| == pitch }

    predicate ScreenOk(s: seq<Row>) { |s| == height && forall y :: 0 <= y < height ==> RowOk(s[y]) }
  }

  /** fb_pack: canonical 0x00RRGGBB to the hardware layout. */
  function Pack(m: Mode, color: bv32): bv32
    requires m.Ok()
  {
    ((((color >> 16) & 0xff) >> m.rLoss) << m.rShift) |
    ((((color >> 8) & 0xff) >> m.gLoss) << m.gShift) |
    (((color & 0xff) >> m.bLoss) << m.bShift)
  }

  function ByteOf(v: bv32): bv8 { (v & 0xff) as bv8 }

  /** The bytes fb_store_pixel writes. */
  function PixelBytes(m: Mode, v: bv32): (b: seq<bv8>)
    requires m.Ok()
    ensures 1 <= |b| <= m.bytesPp
  {
    if m.bytesPp == 4 then [ByteOf(v), ByteOf(v >> 8), ByteOf(v >> 16), ByteOf(v >> 24)]
    else if m.bytesPp == 3 then [ByteOf(v), ByteOf(v >> 8), ByteOf(v >> 16)]
    else if m.bytesPp == 2 then [ByteOf(v), ByteOf(v >> 8)]
    else [ByteOf(v)]
  }

  lemma PixelFits(m: Mode, x: nat)
    requires m.Ok() && x < m.width
    ensures x * m.bytesPp + m.bytesPp <= m.pitch
  {
    assert (x + 1) * m.bytesPp <= m.width * m.bytesPp;
  }

  /** One pixel of a row in the hardware format. */
  function Paint(m: Mode, r: Row, x: nat, v: bv32): (r': Row)
    requires m.Ok() && m.RowOk(r) && x < m.width
    ensures m.RowOk(r')
  {
    PixelFits(m, x);
    var at, b := x * m.bytesPp, PixelBytes(m, v);
    r[..at] + b + r[at + |b|..]
  }

  /** Consecutive pixels of a row. */
  function PaintAll(m: Mode, r: Row, x: nat, vs: seq<bv32>): (r': Row)
    requires m.Ok() && m.RowOk(r) && x + |vs| <= m.width
    ensures m.RowOk(r')
    decreases |vs|
  {
    if vs == [] then r else PaintAll(m, Paint(m, r, x, vs[0]), x + 1, vs[1..])
  }

  function Repeat(v: bv32, n: nat): seq<bv32> { seq(n, _ => v) }

  /** framebuffer_putpixel. */
  function PutPixel(m: Mode, s: seq<Row>, x: nat, y: nat, color: bv32): (s': seq<Row>)
    requires m.Ok() && m.ScreenOk(s)
    ensures m.ScreenOk(s')
  {
    if x >= m.width || y >= m.height then s else s[y := Paint(m, s[y], x, Pack(m, color))]
  }

  /** A row of single pixels, left to right. */
  function PutRow(m: Mode, s: seq<Row>, x: nat, y: nat, colors: seq<bv32>): (s': seq<Row>)
    requires m.Ok() && m.ScreenOk(s)
    ensures m.ScreenOk(s')
    decreases |colors|
  {
    if colors == [] then s else PutRow(m, PutPixel(m, s, x, y, colors[0]), x + 1, y, colors[1..])
  }

  /** A rectangle of single pixels, row after row; pixels off the screen do nothing. */
  function PutRect(m: Mode, s: seq<Row>, x: nat, y: nat, w: nat, h: nat, color: bv32): (s': seq<Row>)
    requires m.Ok() && m.ScreenOk(s)
    ensures m.ScreenOk(s')
    decreases h
  {
    if h == 0 then s else PutRect(m, PutRow(m, s, x, y, Repeat(color, w)), x, y + 1, w, h - 1, color)
  }

  function BlankRow(m: Mode): Row { seq(m.pitch, _ => 0) }

  /** The direct path of framebuffer_scroll_up. */
  function ScrollUp(m: Mode, s: seq<Row>, lines: nat): (s': seq<Row>)
    requires m.ScreenOk(s)
    ensures m.ScreenOk(s')
  {
    var n := Min(lines, m.height);
    s[n..] + seq(n, _ => BlankRow(m))
  }

  function PackAll(m: Mode, colors: seq<bv32>): (r: seq<bv32>)
    requires m.Ok()
    ensures |r| == |colors|
  {
    seq(|colors|, i requires 0 <= i < |colors| => Pack(m, colors[i]))
  }

  // -------------------------------------------------- pixels row by row, clipped

  /** Pixels right of the screen do nothing. */
  lemma {:induction false} PutRowOutside(m: Mode, s: seq<Row>, x: nat, y: nat, colors: seq<bv32>)
    requires m.Ok() && m.ScreenOk(s) && (x >= m.width || y >= m.height)
    ensures PutRow(m, s, x, y, colors) == s
    decreases |colors|
  {
    if colors != [] {
      PutRowOutside(m, s, x + 1, y, colors[1..]);
    }
  }

  /** A row of single pixels rewrites one row of the screen, clipped at its right edge. */
  lemma {:induction false} PutRowClipped(m: Mode, s: seq<Row>, x: nat, y: nat, colors: seq<bv32>)
    requires m.Ok() && m.ScreenOk(s) && x <= m.width && y < m.height
    ensures var n := Min(|colors|, m.width - x);
            PutRow(m, s, x, y, colors) == s[y := PaintAll(m, s[y], x, PackAll(m, colors[..n]))]
    decreases |colors|
  {
    hide Paint, Pack, Mode.Ok;
    var n := Min(|colors|, m.width - x);
    if colors == [] || x == m.width {
      PutRowNothing(m, s, x, y, colors);
      assert colors[..n] == [] && s[y := s[y]] == s;
    } else {
      var s' := PutPixel(m, s, x, y, colors[0]);
      PutRowClipped(m, s', x + 1, y, colors[1..]);
      var vs := PackAll(m, colors[..n]);
      assert colors[..n][1..] == colors[1..][..n - 1];
      assert vs[0] == Pack(m, colors[0]) && vs[1..] == PackAll(m, colors[1..][..n - 1]);
    }
  }

  lemma PutRowNothing(m: Mode, s: seq<Row>, x: nat, y: nat, colors: seq<bv32>)
    requires m.Ok() && m.ScreenOk(s) && (colors == [] || x >= m.width)
    ensures PutRow(m, s, x, y, colors) == s
  {
    if colors != [] {
      PutRowOutside(m, s, x, y, colors);
    }
  }

  lemma {:induction false} PutRectOutside(m: Mode, s: seq<Row>, x: nat, y: nat, w: nat, h: nat, color: bv32)
    requires m.Ok() && m.ScreenOk(s) && (x >= m.width || y >= m.height || w == 0)
    ensures PutRect(m, s, x, y, w, h, color) == s
    decreases h
  {
    if h > 0 {
      if w > 0 {
        PutRowOutside(m, s, x, y, Repeat(color, w));
      }
      PutRectOutside(m, s, x, y + 1, w, h - 1, color);
    }
  }

  /** The first row of a rectangle, as one rewritten row. */
  lemma PutRectRow(m: Mode, s: seq<Row>, x: nat, y: nat, w: nat, h: nat, color: bv32)
    requires m.Ok() && m.ScreenOk(s) && x < m.width && y < m.height && h > 0
    ensures var cw := Min(w, m.width - x);
            PutRect(m, s, x, y, w, h, color) ==
            PutRect(m, s[y := PaintAll(m, s[y], x, Repeat(Pack(m, color), cw))], x, y + 1, w, h - 1, color)
  {
    hide Paint, Pack;
    PutRowClipped(m, s, x, y, Repeat(color, w));
    var cw := Min(w, m.width - x);
    assert PackAll(m, Repeat(color, w)[..cw]) == Repeat(Pack(m, color), cw);
  }

  /** Memory order of a 32-bit store, used by the copying path of framebuffer_putpixels. */
  predicate Canonical(m: Mode) {
    && m.bytesPp == 4 && m.rLoss == 0 && m.gLoss == 0 && m.bLoss == 0
    && m.rShift == 16 && m.gShift == 8 && m.bShift == 0
  }

  /** In the canonical layout packing drops the top byte and nothing else. */
  lemma CanonicalPack(m: Mode, color: bv32)
    requires m.Ok() && Canonical(m)
    ensures Pack(m, color) == color & 0x00ff_ffff
    ensures Pack(m, color) == color <==> color & 0xff00_0000 == 0
  {}

  /** The words framebuffer_putpixels stores: copied as they are in the canonical layout, packed otherwise. */
  function Words(m: Mode, colors: seq<bv32>): (r: seq<bv32>)
    requires m.Ok()
    ensures |r| == |colors|
  {
    if Canonical(m) then colors else PackAll(m, colors)
  }

  /** framebuffer_putpixels. */
  function PutPixels(m: Mode, s: seq<Row>, x: nat, y: nat, colors: seq<bv32>): (s': seq<Row>)
    requires m.Ok() && m.ScreenOk(s)
    ensures m.ScreenOk(s')
  {
    if y >= m.height || x >= m.width then s
    else s[y := PaintAll(m, s[y], x, Words(m, colors[..Min(|colors|, m.width - x)]))]
  }

  /** Colours in the canonical format 0x00RRGGBB. */
  predicate Clean(colors: seq<bv32>) { forall i :: 0 <= i < |colors| ==> colors[i] & 0xff00_0000 == 0 }

  /** Pixels written later do not touch an earlier one. */
  lemma {:induction false} PaintAllBefore(m: Mode, r: Row, x: nat, vs: seq<bv32>, j: nat)
    requires m.Ok() && m.RowOk(r) && x + |vs| <= m.width && j < x * m.bytesPp && j < m.pitch
    ensures PaintAll(m, r, x, vs)[j] == r[j]
    decreases |vs|
  {
    hide Mode.Ok;
    if vs != [] {
      PixelFits(m, x);
      PaintBefore(m, r, x, vs[0], j);
      assert (x + 1) * m.bytesPp == x * m.bytesPp + m.bytesPp;
      hide Paint;
      PaintAllBefore(m, Paint(m, r, x, vs[0]), x + 1, vs[1..], j);
    }
  }

  lemma PaintBefore(m: Mode, r: Row, x: nat, v: bv32, j: nat)
    requires m.Ok() && m.RowOk(r) && x < m.width && j < x * m.bytesPp && j < m.pitch
    ensures Paint(m, r, x, v)[j] == r[j]
  {
    PixelFits(m, x);
  }

  /** At 32 bits the top byte of a word can be read back from its pixel. */
  lemma {:induction false} TopByte(m: Mode, r: Row, x: nat, vs: seq<bv32>, i: nat)
    requires m.Ok() && m.bytesPp == 4 && m.RowOk(r) && x + |vs| <= m.width && i < |vs|
    ensures 4 * (x + i) + 3 < m.pitch && PaintAll(m, r, x, vs)[4 * (x + i) + 3] == ByteOf(vs[i] >> 24)
    decreases i
  {
    PixelFits(m, x + i);
    var r' := Paint(m, r, x, vs[0]);
    if i == 0 {
      PixelFits(m, x);
      assert r'[4 * x + 3] == ByteOf(vs[0] >> 24);
      hide Paint;
      PaintAllBefore(m, r', x + 1, vs[1..], 4 * x + 3);
    } else {
      hide Paint;
      TopByte(m, r', x + 1, vs[1..], i - 1);
    }
  }

  /** framebuffer_putpixels draws what single pixels would exactly if no copied colour has a top byte. */
  lemma PutPixelsExact(m: Mode, s: seq<Row>, x: nat, y: nat, colors: seq<bv32>)
    requires m.Ok() && m.ScreenOk(s) && x < m.width && y < m.height
    ensures PutPixels(m, s, x, y, colors) == PutRow(m, s, x, y, colors) <==>
            !Canonical(m) || Clean(colors[..Min(|colors|, m.width - x)])
  {
    hide Pack, Paint, Mode.Ok, PaintAll;
    PutRowClipped(m, s, x, y, colors);
    var shown := colors[..Min(|colors|, m.width - x)];
    if Canonical(m) {
      forall i | 0 <= i < |shown| ensures Pack(m, shown[i]) == shown[i] <==> shown[i] & 0xff00_0000 == 0 {
        CanonicalPack(m, shown[i]);
      }
      if Clean(shown) {
        assert PackAll(m, shown) == shown;
      } else {
        var i :| 0 <= i < |shown| && shown[i] & 0xff00_0000 != 0;
        CanonicalPack(m, shown[i]);
        TopByte(m, s[y], x, shown, i);
        TopByte(m, s[y], x, PackAll(m, shown), i);
        TopByteDiffers(shown[i]);
        var copied, single := PutPixels(m, s, x, y, colors), PutRow(m, s, x, y, colors);
        assert copied[y] == PaintAll(m, s[y], x, shown) && single[y] == PaintAll(m, s[y], x, PackAll(m, shown));
        assert copied[y][4 * (x + i) + 3] != single[y][4 * (x + i) + 3];
      }
    }
  }

  const TRUE_COLOR: Mode := Mode(1, 1, 4, 4, 0, 0, 0, 16, 8, 0)

  /** One black pixel whose colour has a top byte comes out differently. */
  lemma PutPixelsDiffers()
    ensures TRUE_COLOR.Ok() && TRUE_COLOR.ScreenOk([BlankRow(TRUE_COLOR)])
    ensures PutPixels(TRUE_COLOR, [BlankRow(TRUE_COLOR)], 0, 0, [0xff00_0000]) !=
            PutRow(TRUE_COLOR, [BlankRow(TRUE_COLOR)], 0, 0, [0xff00_0000])
  {
    hide PutPixels, PutRow;
    var colors: seq<bv32> := [0xff00_0000];
    PutPixelsExact(TRUE_COLOR, [BlankRow(TRUE_COLOR)], 0, 0, colors);
    assert colors[..1] == colors && colors[0] & 0xff00_0000 != 0;
    assert !Clean(colors);
  }

  lemma TopByteDiffers(c: bv32)
    requires c & 0xff00_0000 != 0
    ensures ByteOf(c >> 24) != ByteOf((c & 0x00ff_ffff) >> 24)
  {}

  // ------------------------------------------------------------------- whole runs

  datatype Op =
    | Pixel(x: nat, y: nat, color: bv32)
    | Pixels(x: nat, y: nat, colors: seq<bv32>)
    | Rect(x: nat, y: nat, w: nat, h: nat, color: bv32)
    | Scroll(lines: nat)
    | Flush

  function Step(m: Mode, s: seq<Row>, op: Op): (s': seq<Row>)
    requires m.Ok() && m.ScreenOk(s)
    ensures m.ScreenOk(s')
  {
    match op
    case Pixel(x, y, color) => PutPixel(m, s, x, y, color)
    case Pixels(x, y, colors) => PutPixels(m, s, x, y, colors)
    case Rect(x, y, w, h, color) => PutRect(m, s, x, y, w, h, color)
    case Scroll(lines) => ScrollUp(m, s, lines)
    case Flush => s
  }

  /** What the operations draw on a plain screen. */
  function Run(m: Mode, s: seq<Row>, ops: seq<Op>): (s': seq<Row>)
    requires m.Ok() && m.ScreenOk(s)
    ensures m.ScreenOk(s')
    decreases |ops|
  {
    if ops == [] then s else Run(m, Step(m, s, ops[0]), ops[1..])
  }
}
