/**
 * gfx_line (game/gfx.c:88-112): integer Bresenham in 32-bit signed
 * arithmetic, plotting through the framebuffer.
 */
module Line {
  import opened Arith
  import opened Screen
  import opened Framebuffer

  newtype S32 = x: int | -0x8000_0000 <= x < 0x8000_0000

  datatype Point = Point(x: int, y: int)

  function Abs(a: int): nat { if a < 0 then -a else a }

  function Max(a: nat, b: nat): nat { if a < b then b else a }

  function Sign(from: int, to: int): int { if from < to then 1 else -1 }

  // --------------------------------------------------------------- the ideal line

  /** `k * short / long` rounded to the nearest integer, halves downwards. */
  function Minor(long: nat, short: nat, k: nat): nat {
    if long == 0 then 0 else (2 * (k * short) + long - 1) / (2 * long)
  }

  /** Steps taken in x and in y when the k-th pixel is plotted. */
  function XSteps(dx: nat, dy: nat, k: nat): nat { if dx >= dy then k else Minor(dy, dx, k) }

  function YSteps(dx: nat, dy: nat, k: nat): nat { if dx >= dy then Minor(dx, dy, k) else k }

  /** The pixels of a line, as a closed form. */
  function Pixel(p: Point, q: Point, k: nat): Point {
    var dx, dy := Abs(q.x - p.x), Abs(q.y - p.y);
    Point(p.x + Sign(p.x, q.x) * XSteps(dx, dy, k), p.y + Sign(p.y, q.y) * YSteps(dx, dy, k))
  }

  function Count(p: Point, q: Point): nat { Max(Abs(q.x - p.x), Abs(q.y - p.y)) + 1 }

  /** How far (i, j) steps are from the line, scaled: j * dx - i * dy. */
  ghost function Dev(dx: int, dy: int, i: int, j: int): int { j * dx - i * dy }

  /** The rounding is within half a pixel, and nothing else is. */
  lemma MinorExact(long: nat, short: nat, k: nat, m: int)
    requires long > 0
    ensures -1 * long <= 2 * (long * m - short * k) < long <==> m == Minor(long, short, k)
  {
    var a, q := 2 * (k * short) + long - 1, Minor(long, short, k);
    assert a == 2 * long * q + a % (2 * long);
    Twice(long, q);
    Twice(long, m);
    if -1 * long <= 2 * (long * m - short * k) < long {
      ModUnique(a, 2 * long, m, a - 2 * long * m);
    }
  }

  lemma Twice(a: int, b: int)
    ensures 2 * a * b == 2 * (a * b)
  {}

  lemma DevStep(dx: int, dy: int, i: int, j: int)
    ensures Dev(dx, dy, i + 1, j) == Dev(dx, dy, i, j) - dy
    ensures Dev(dx, dy, i, j + 1) == Dev(dx, dy, i, j) + dx
  {
    Distribute(dy, i, 1);
    Distribute(dx, j, 1);
  }

  /** Bresenham's tests move from one rounded pixel to the next. */
  lemma Advance(dx: nat, dy: nat, k: nat)
    requires k < Max(dx, dy)
    ensures var err := dx - dy + Dev(dx, dy, XSteps(dx, dy, k), YSteps(dx, dy, k));
            && -3 * Max(dx, dy) <= 2 * err <= 3 * Max(dx, dy)
            && XSteps(dx, dy, k + 1) == XSteps(dx, dy, k) + (if 2 * err > -1 * dy then 1 else 0)
            && YSteps(dx, dy, k + 1) == YSteps(dx, dy, k) + (if 2 * err < dx then 1 else 0)
  {
    hide Minor, Dev;
    if dx >= dy {
      AdvanceWide(dx, dy, k);
    } else {
      AdvanceTall(dx, dy, k);
    }
  }

  lemma AdvanceWide(dx: nat, dy: nat, k: nat)
    requires k < dx && dy <= dx
    ensures var err := dx - dy + Dev(dx, dy, k, Minor(dx, dy, k));
            && -3 * dx <= 2 * err <= 3 * dx && 2 * err > -1 * dy
            && Minor(dx, dy, k + 1) == Minor(dx, dy, k) + (if 2 * err < dx then 1 else 0)
  {
    hide Minor;
    var j := Minor(dx, dy, k);
    var d := Dev(dx, dy, k, j);
    assert d == dx * j - dy * k;
    MinorExact(dx, dy, k, j);
    DevStep(dx, dy, k, j);
    DevStep(dx, dy, k + 1, j);
    var j' := if 2 * (dx - dy + d) < dx then j + 1 else j;
    assert Dev(dx, dy, k + 1, j') == dx * j' - dy * (k + 1);
    MinorExact(dx, dy, k + 1, j');
    if dx == dy {
      MinorExact(dx, dy, k, k);
    }
  }

  lemma AdvanceTall(dx: nat, dy: nat, k: nat)
    requires k < dy && dx < dy
    ensures var err := dx - dy + Dev(dx, dy, Minor(dy, dx, k), k);
            && -3 * dy <= 2 * err <= 3 * dy && 2 * err < dx
            && Minor(dy, dx, k + 1) == Minor(dy, dx, k) + (if 2 * err > -1 * dy then 1 else 0)
  {
    hide Minor;
    var i := Minor(dy, dx, k);
    var d := Dev(dx, dy, i, k);
    assert d == dx * k - dy * i;
    MinorExact(dy, dx, k, i);
    DevStep(dx, dy, i, k);
    DevStep(dx, dy, i, k + 1);
    var i' := if 2 * (dx - dy + d) > -1 * dy then i + 1 else i;
    assert Dev(dx, dy, i', k + 1) == dx * (k + 1) - dy * i';
    MinorExact(dy, dx, k + 1, i');
  }

  lemma MinorBound(long: nat, short: nat, k: nat)
    requires k <= long
    ensures Minor(long, short, k) <= short && Minor(long, short, 0) == 0
    ensures Minor(long, short, long) == if long == 0 then 0 else short
  {
    if long > 0 {
      var m := Minor(long, short, k);
      MinorExact(long, short, k, m);
      MinorExact(long, short, 0, 0);
      MinorExact(long, short, long, short);
      if m > short {
        Distribute(long, short, m - short);
        AtLeastOnce(long, m - short);
        Distribute(short, k, long - k);
      }
    }
  }

  lemma StepsBound(dx: nat, dy: nat, k: nat)
    requires k <= Max(dx, dy)
    ensures XSteps(dx, dy, k) <= dx && YSteps(dx, dy, k) <= dy
    ensures XSteps(dx, dy, 0) == 0 && YSteps(dx, dy, 0) == 0
    ensures XSteps(dx, dy, k) == dx && YSteps(dx, dy, k) == dy <==> k == Max(dx, dy)
  {
    hide Minor;
    if dx >= dy {
      MinorBound(dx, dy, k);
    } else {
      MinorBound(dy, dx, k);
    }
  }

  // ------------------------------------------------------- what the closed form means

  /** The line runs from `p` to `q`, and reaches `q` only at its last pixel. */
  lemma LineEnds(p: Point, q: Point, k: nat)
    requires k < Count(p, q)
    ensures Pixel(p, q, 0) == p
    ensures Pixel(p, q, k) == q <==> k == Count(p, q) - 1
  {
    hide XSteps, YSteps;
    StepsBound(Abs(q.x - p.x), Abs(q.y - p.y), k);
  }

  /** One pixel to the next is at most one step on each axis, towards `q`, and one step on the long axis. */
  lemma LineSteps(p: Point, q: Point, k: nat)
    requires k + 1 < Count(p, q)
    ensures var a, b := Pixel(p, q, k), Pixel(p, q, k + 1);
            && b.x - a.x in {0, Sign(p.x, q.x)} && b.y - a.y in {0, Sign(p.y, q.y)}
            && (if Abs(q.x - p.x) >= Abs(q.y - p.y) then b.x != a.x else b.y != a.y)
  {
    var dx, dy := Abs(q.x - p.x), Abs(q.y - p.y);
    Advance(dx, dy, k);
    hide Dev, Minor;
  }

  /** Every pixel is inside the box of its ends and within half a pixel of the ideal line. */
  lemma LineError(p: Point, q: Point, k: nat)
    requires k < Count(p, q)
    ensures var a := Pixel(p, q, k);
            var dx, dy, i, j := Abs(q.x - p.x), Abs(q.y - p.y), Abs(a.x - p.x), Abs(a.y - p.y);
            && i <= dx && j <= dy && 2 * Abs(j * dx - i * dy) <= Max(dx, dy)
  {
    var dx, dy := Abs(q.x - p.x), Abs(q.y - p.y);
    var i, j := XSteps(dx, dy, k), YSteps(dx, dy, k);
    StepsBound(dx, dy, k);
    Steps(dx, dy, k);
    hide XSteps, YSteps;
    assert Abs(Pixel(p, q, k).x - p.x) == i && Abs(Pixel(p, q, k).y - p.y) == j;
  }

  lemma Steps(dx: nat, dy: nat, k: nat)
    requires k <= Max(dx, dy)
    ensures 2 * Abs(Dev(dx, dy, XSteps(dx, dy, k), YSteps(dx, dy, k))) <= Max(dx, dy)
  {
    if dx >= dy {
      var m := Minor(dx, dy, k);
      if dx > 0 {
        MinorExact(dx, dy, k, m);
      }
      hide Minor;
      assert Dev(dx, dy, k, m) == dx * m - dy * k;
    } else {
      var m := Minor(dy, dx, k);
      MinorExact(dy, dx, k, m);
      hide Minor;
      assert Dev(dx, dy, m, k) == dx * k - dy * m;
    }
  }

  lemma MinorNearest(long: nat, short: nat, k: nat, m: int)
    requires k <= long
    ensures Abs(long * Minor(long, short, k) - short * k) <= Abs(long * m - short * k)
  {
    if long > 0 {
      var n := Minor(long, short, k);
      MinorExact(long, short, k, n);
      Distribute(long, m - n, n);
      Between(long, m - n);
      Between(long, n - m);
      Distribute(long, m - n, n - m);
    }
  }

  /** No pixel of the same column, or of the same row for a steep line, is nearer to the ideal line. */
  lemma LineNearest(p: Point, q: Point, k: nat, m: int)
    requires k < Count(p, q)
    ensures var a := Pixel(p, q, k);
            var dx, dy, i, j := Abs(q.x - p.x), Abs(q.y - p.y), Abs(a.x - p.x), Abs(a.y - p.y);
            if dx >= dy then Abs(Dev(dx, dy, i, j)) <= Abs(Dev(dx, dy, i, m))
            else Abs(Dev(dx, dy, i, j)) <= Abs(Dev(dx, dy, m, j))
  {
    var dx, dy := Abs(q.x - p.x), Abs(q.y - p.y);
    var i, j := XSteps(dx, dy, k), YSteps(dx, dy, k);
    StepsAway(p, q, k);
    if dx >= dy {
      MinorNearest(dx, dy, k, m);
      assert Dev(dx, dy, k, j) == dx * j - dy * k && Dev(dx, dy, k, m) == dx * m - dy * k;
    } else {
      MinorNearest(dy, dx, k, m);
      assert Dev(dx, dy, i, k) == dx * k - dy * i && Dev(dx, dy, m, k) == dx * k - dy * m;
    }
    hide Minor, Dev, Pixel;
  }

  lemma StepsAway(p: Point, q: Point, k: nat)
    ensures var a := Pixel(p, q, k);
            var dx, dy := Abs(q.x - p.x), Abs(q.y - p.y);
            Abs(a.x - p.x) == XSteps(dx, dy, k) && Abs(a.y - p.y) == YSteps(dx, dy, k)
  {
    hide XSteps, YSteps;
  }

  // ---------------------------------------------------------------------- the loop

  /** The cast to u32 on the way into framebuffer_putpixel. */
  function U32(v: int): nat { v % 0x1_0000_0000 }

  /** The line as framebuffer operations. */
  function Draws(p: Point, q: Point, color: bv32, k: nat): (ops: seq<Op>)
    requires k <= Count(p, q)
    decreases Count(p, q) - k
  {
    if k == Count(p, q) then [] else
      var a := Pixel(p, q, k);
      [Op.Pixel(U32(a.x), U32(a.y), color)] + Draws(p, q, color, k + 1)
  }

  lemma DrawOne(m: Mode, s: seq<Row>, p: Point, q: Point, color: bv32, k: nat)
    requires m.Ok() && m.ScreenOk(s) && k < Count(p, q)
    ensures var a := Pixel(p, q, k);
            Run(m, s, Draws(p, q, color, k)) ==
            Run(m, Screen.PutPixel(m, s, U32(a.x), U32(a.y), color), Draws(p, q, color, k + 1))
    ensures Run(m, s, Draws(p, q, color, Count(p, q))) == s
  {
    hide Pixel, U32, Mode.Ok, Screen.PutPixel, Count;
    assert Draws(p, q, color, k)[1..] == Draws(p, q, color, k + 1);
  }

  predicate Fits(p: Point) { -0x8000_0000 <= p.x < 0x8000_0000 && -0x8000_0000 <= p.y < 0x8000_0000 }

  lemma PixelFits32(p: Point, q: Point, k: nat)
    requires k < Count(p, q) && Fits(p) && Fits(q)
    ensures Fits(Pixel(p, q, k))
  {
    hide XSteps, YSteps;
    StepsBound(Abs(q.x - p.x), Abs(q.y - p.y), k);
  }

  /** The value of `err` before the k-th pixel is plotted. */
  ghost function Err(p: Point, q: Point, k: nat): int {
    var dx, dy := Abs(q.x - p.x), Abs(q.y - p.y);
    dx - dy + Dev(dx, dy, XSteps(dx, dy, k), YSteps(dx, dy, k))
  }

  /** One turn of the loop. */
  lemma NextPixel(p: Point, q: Point, k: nat)
    requires k + 1 < Count(p, q)
    ensures var a, b := Pixel(p, q, k), Pixel(p, q, k + 1);
            var dx, dy, e2 := Abs(q.x - p.x), Abs(q.y - p.y), 2 * Err(p, q, k);
            && -3 * Max(dx, dy) <= e2 <= 3 * Max(dx, dy)
            && b.x == a.x + (if e2 > -1 * dy then Sign(p.x, q.x) else 0)
            && b.y == a.y + (if e2 < dx then Sign(p.y, q.y) else 0)
            && Err(p, q, k + 1) == Err(p, q, k) - (if e2 > -1 * dy then dy else 0) + (if e2 < dx then dx else 0)
  {
    hide XSteps, YSteps, Dev, Abs;
    var dx, dy := Abs(q.x - p.x), Abs(q.y - p.y);
    Advance(dx, dy, k);
    var i, j := XSteps(dx, dy, k), YSteps(dx, dy, k);
    var i', j' := XSteps(dx, dy, k + 1), YSteps(dx, dy, k + 1);
    DevMove(dx, dy, i, j, i', j');
    Towards(Sign(p.x, q.x), i, i');
    Towards(Sign(p.y, q.y), j, j');
  }

  lemma DevMove(dx: int, dy: int, i: nat, j: nat, i': nat, j': nat)
    requires i <= i' <= i + 1 && j <= j' <= j + 1
    ensures Dev(dx, dy, i', j') == Dev(dx, dy, i, j) - (if i' == i then 0 else dy) + (if j' == j then 0 else dx)
  {
    DevStep(dx, dy, i, j);
    DevStep(dx, dy, i, j + 1);
    hide Dev;
  }

  lemma Towards(s: int, i: nat, i': nat)
    requires i <= i' <= i + 1
    ensures s * i' == s * i + (if i' == i then 0 else s)
  {
    Distribute(s, i, i' - i);
  }

  lemma FirstPixel(p: Point, q: Point)
    ensures Pixel(p, q, 0) == p && Err(p, q, 0) == Abs(q.x - p.x) - Abs(q.y - p.y)
  {
    StepsBound(Abs(q.x - p.x), Abs(q.y - p.y), 0);
    hide XSteps, YSteps;
  }

  predicate In32(n: int) { -0x8000_0000 <= n < 0x8000_0000 }

  /** The turn after pixel `k` computes nothing outside 32 bits. */
  ghost predicate TurnFits(p: Point, q: Point, k: nat) {
    var dy, e := Abs(q.y - p.y), Err(p, q, k);
    In32(2 * e) && (2 * e > -1 * dy ==> In32(e - dy)) && In32(Err(p, q, k + 1))
  }

  /** No signed operation of the whole call overflows. */
  ghost predicate NoOverflow(p: Point, q: Point) {
    && In32(Abs(q.x - p.x)) && In32(Abs(q.y - p.y))
    && forall k :: 0 <= k && k + 1 < Count(p, q) ==> TurnFits(p, q, k)
  }

  /** Ends at most a third of the range apart are always fine. */
  lemma NearFits(p: Point, q: Point)
    requires Abs(q.x - p.x) <= 715_827_882 && Abs(q.y - p.y) <= 715_827_882
    ensures NoOverflow(p, q)
  {
    hide Err, Count;
    forall k | 0 <= k && k + 1 < Count(p, q) ensures TurnFits(p, q, k) {
      NextPixel(p, q, k);
    }
  }

  /** A horizontal line overflows exactly from 2^30 pixels on. */
  lemma FlatExact(p: Point, q: Point)
    requires p.y == q.y
    ensures NoOverflow(p, q) <==> Abs(q.x - p.x) < 0x4000_0000
  {
    var dx := Abs(q.x - p.x);
    forall k: nat | k <= dx ensures Err(p, q, k) == dx {
      FlatErr(dx, k);
    }
    hide Err;
    if dx >= 0x4000_0000 {
      assert !TurnFits(p, q, 0);
    }
  }

  lemma FlatErr(dx: nat, k: nat)
    requires k <= dx
    ensures Dev(dx, 0, XSteps(dx, 0, k), YSteps(dx, 0, k)) == 0
  {
    MinorBound(dx, 0, k);
  }

  /** gfx_line, wherever its signed arithmetic is defined. */
  method Draw(fb: Display, from: (S32, S32), to: (S32, S32), color: bv32)
    requires fb.Valid()
    requires NoOverflow(Point(from.0 as int, from.1 as int), Point(to.0 as int, to.1 as int))
    modifies fb`dirtyMin, fb`dirtyMax, fb.hw, fb.back
    ensures fb.Valid() && (old(fb.Synced()) ==> fb.Synced())
    ensures fb.View() == Run(fb.mode, old(fb.View()),
                             Draws(Point(from.0 as int, from.1 as int), Point(to.0 as int, to.1 as int), color, 0))
  {
    hide Display.Valid, Display.View, Display.Synced, Pixel, Err, Mode.Ok, Mode.ScreenOk, Screen.PutPixel, Run,
      Draws, U32;
    var (x0, y0) := from;
    var (x1, y1) := to;
    ghost var p, q := Point(x0 as int, y0 as int), Point(x1 as int, y1 as int);
    var dx := if x1 > x0 then x1 - x0 else x0 - x1;
    var dy := if y1 > y0 then y1 - y0 else y0 - y1;
    var sx: S32 := if x0 < x1 then 1 else -1;
    var sy: S32 := if y0 < y1 then 1 else -1;
    var err := dx - dy;
    ghost var k, n := 0, Count(p, q);
    FirstPixel(p, q);
    assert Abs(q.x - p.x) == dx as int && Abs(q.y - p.y) == dy as int;
    assert Sign(p.x, q.x) == sx as int && Sign(p.y, q.y) == sy as int;
    hide Abs, Sign, Count;
    while true
      invariant k < n && Point(x0 as int, y0 as int) == Pixel(p, q, k)
      invariant err as int == Err(p, q, k)
      invariant fb.Valid() && (old(fb.Synced()) ==> fb.Synced())
      invariant Run(fb.mode, fb.View(), Draws(p, q, color, k)) == Run(fb.mode, old(fb.View()), Draws(p, q, color, 0))
      decreases n - k
    {
      DrawOne(fb.mode, fb.View(), p, q, color, k);
      fb.PutPixel(U32(x0 as int), U32(y0 as int), color);
      LineEnds(p, q, k);
      if x0 == x1 && y0 == y1 {
        DrawOne(fb.mode, fb.View(), p, q, color, k);
        break;
      }
      NextPixel(p, q, k);
      assert TurnFits(p, q, k);
      PixelFits32(p, q, k + 1);
      var e2 := 2 * err;
      if e2 > -dy {
        err := err - dy;
        x0 := x0 + sx;
      }
      if e2 < dx {
        err := err + dx;
        y0 := y0 + sy;
      }
      k := k + 1;
    }
  }
}
