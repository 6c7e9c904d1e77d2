/**
 * The framebuffer with its double-height back buffer, sliding window and dirty
 * interval (iokit/IOGraphicsFamily/fb.c:48-70, 228-455; buffer.c:93-114).
 * A buffer is an array of rows; memmove and memset over whole rows are loops.
 */
module Framebuffer {
  import opened Common
  import opened Screen

  predicate AllBlank(m: Mode, rows: seq<Row>) { forall y :: 0 <= y < |rows| ==> rows[y] == BlankRow(m) }

  lemma BlankConcat(m: Mode, a: seq<Row>, b: seq<Row>)
    ensures AllBlank(m, a + b) <==> AllBlank(m, a) && AllBlank(m, b)
  {
    hide BlankRow;
    forall y | 0 <= y < |a| ensures a[y] == (a + b)[y] {
    }
    forall y | 0 <= y < |b| ensures b[y] == (a + b)[|a| + y] {
    }
  }

  /** The rows of a back buffer and the first row of its window. */
  datatype Ring = Ring(rows: seq<Row>, top: nat)
  {
    predicate Inside(m: Mode) { |rows| == 2 * m.height && top <= m.height }

    function Shown(m: Mode): seq<Row>
      requires Inside(m)
    {
      rows[top..top + m.height]
    }

    /** What every scroll by at most a screen relies on: the rows below the window are blank. */
    predicate Clean(m: Mode) { Inside(m) && AllBlank(m, rows[top + m.height..]) }
  }

  /** framebuffer_scroll_up in back-buffer mode: clear everything, or compact if needed and advance. */
  function Scrolled(m: Mode, r: Ring, lines: nat): Ring
    requires r.Inside(m)
  {
    if lines >= 2 * m.height then Ring(seq(m.height, _ => BlankRow(m)) + r.rows[m.height..], 0)
    else if r.top + lines + m.height <= 2 * m.height then Ring(r.rows, r.top + lines)
    else Ring(r.Shown(m) + seq(m.height, _ => BlankRow(m)), lines)
  }

  /**
   * The window stays inside the buffer exactly for at most a screen of lines
   * or at least the whole buffer, and then shows what a plain screen would.
   */
  lemma ScrollShows(m: Mode, r: Ring, lines: nat)
    requires m.height > 0 && r.Clean(m) && m.ScreenOk(r.Shown(m))
    ensures Scrolled(m, r, lines).Inside(m) <==> lines <= m.height || lines >= 2 * m.height
    ensures Scrolled(m, r, lines).Inside(m) ==> Scrolled(m, r, lines).Shown(m) == Screen.ScrollUp(m, r.Shown(m), lines)
  {
    hide BlankRow;
    var c := Ring(r.Shown(m) + seq(m.height, _ => BlankRow(m)), 0);
    if lines < 2 * m.height && r.top + lines <= m.height {
      WindowAdvance(m, r.rows, r.top, lines);
    } else if lines <= m.height {
      assert c.rows[..m.height] == r.Shown(m);
      WindowAdvance(m, c.rows, 0, lines);
    } else if lines >= 2 * m.height {
      assert Scrolled(m, r, lines).Shown(m) == seq(m.height, _ => BlankRow(m)) == Screen.ScrollUp(m, r.Shown(m), lines);
    }
  }

  /**
   * The rows below the window stay blank exactly for at most a screen of
   * lines, or when everything is cleared and the part of the screen that lay
   * in the lower half of the buffer was blank already.
   */
  lemma ScrollClean(m: Mode, r: Ring, lines: nat)
    requires m.height > 0 && r.Clean(m) && m.ScreenOk(r.Shown(m))
    ensures Scrolled(m, r, lines).Clean(m) <==>
            lines <= m.height || (lines >= 2 * m.height && AllBlank(m, r.Shown(m)[m.height - r.top..]))
  {
    hide BlankRow;
    var s, h := Scrolled(m, r, lines), m.height;
    if lines >= 2 * h {
      assert s.rows[h..] == r.rows[h..] == r.Shown(m)[h - r.top..] + r.rows[r.top + h..];
      BlankConcat(m, r.Shown(m)[h - r.top..], r.rows[r.top + h..]);
    } else if lines <= h {
      var below := s.rows[s.top + h..];
      assert forall y :: 0 <= y < |below| ==> below[y] == s.rows[s.top + h + y];
    }
  }

  /** Where the window is after an operation. */
  function NextTop(m: Mode, top: nat, op: Op): nat {
    if !op.Scroll? then top
    else if op.lines >= 2 * m.height then 0
    else if top + op.lines + m.height <= 2 * m.height then top + op.lines
    else op.lines
  }

  /** Operations after which the buffer still stands for a plain screen, by the two lemmas above. */
  predicate Safe(m: Mode, s: seq<Row>, top: nat, op: Op)
    requires m.ScreenOk(s)
  {
    op.Scroll? ==>
      op.lines <= m.height || (op.lines >= 2 * m.height && top <= m.height && AllBlank(m, s[m.height - top..]))
  }

  predicate SafeRun(m: Mode, s: seq<Row>, top: nat, ops: seq<Op>)
    requires m.Ok() && m.ScreenOk(s)
    decreases |ops|
  {
    ops == [] ||
    (Safe(m, s, top, ops[0]) && SafeRun(m, Step(m, s, ops[0]), NextTop(m, top, ops[0]), ops[1..]))
  }

  const TINY: Mode := Mode(1, 1, 1, 1, 0, 0, 0, 0, 0, 0)

  /** On a one-row screen: scroll, draw, clear by scrolling two rows, scroll again, and the drawn row is back. */
  lemma StaleRowReturns(pixel: bv8)
    requires pixel != 0
    ensures var blank := BlankRow(TINY);
            var drawn := Ring(Scrolled(TINY, Ring([blank, blank], 0), 1).rows[1 := [pixel]], 1);
            var cleared := Scrolled(TINY, drawn, 2);
            && Scrolled(TINY, Ring([blank, blank], 0), 1).top == 1 && drawn.Shown(TINY) == [[pixel]]
            && cleared.Shown(TINY) == [blank] && !cleared.Clean(TINY)
            && Scrolled(TINY, cleared, 1).Shown(TINY) == [[pixel]] != Screen.ScrollUp(TINY, cleared.Shown(TINY), 1)
  {
    var blank := BlankRow(TINY);
    assert blank == [0] && blank != [pixel];
    var first := Scrolled(TINY, Ring([blank, blank], 0), 1);
    assert first == Ring([blank, blank], 1);
    var drawn := Ring(first.rows[1 := [pixel]], 1);
    assert drawn.rows == [blank, [pixel]] && drawn.Shown(TINY) == [[pixel]];
    var cleared := Scrolled(TINY, drawn, 2);
    assert cleared.rows == [blank, [pixel]] && cleared.top == 0 && cleared.Shown(TINY) == [blank];
    assert cleared.rows[1..] == [[pixel]];
    assert !AllBlank(TINY, [[pixel]]) by {
      assert [[pixel]][0] != blank;
    }
    var last := Scrolled(TINY, cleared, 1);
    assert last == Ring([blank, [pixel]], 1) && last.Shown(TINY) == [[pixel]];
    assert Screen.ScrollUp(TINY, [blank], 1)[0] == blank;
  }

  lemma ClearTopScrolls(m: Mode, r: Ring, lines: nat)
    requires r.Inside(m) && lines >= 2 * m.height
    ensures Scrolled(m, r, lines) == Ring(seq(m.height, _ => BlankRow(m)) + r.rows[m.height..], 0)
  {}

  /** One line more than a screen puts the window past the end of the buffer, on every screen of two rows or more. */
  lemma WindowLeaves(m: Mode, r: Ring)
    requires m.height >= 2 && r.Inside(m)
    ensures Scrolled(m, r, m.height + 1).top + m.height > |Scrolled(m, r, m.height + 1).rows|
  {}

  lemma WindowAdvance(m: Mode, rows: seq<Row>, top: nat, lines: nat)
    requires |rows| == 2 * m.height && top + lines <= m.height && m.ScreenOk(rows[top..top + m.height])
    requires forall y :: top + m.height <= y < |rows| ==> rows[y] == BlankRow(m)
    ensures rows[top + lines..top + lines + m.height] == Screen.ScrollUp(m, rows[top..top + m.height], lines)
  {
    hide BlankRow;
    var a, b := rows[top + lines..top + lines + m.height], Screen.ScrollUp(m, rows[top..top + m.height], lines);
    assert |a| == |b| == m.height;
    forall y | 0 <= y < m.height ensures a[y] == b[y] {
      if y + lines < m.height {
        assert b[y] == rows[top..top + m.height][lines..][y];
      } else {
        assert a[y] == rows[top + lines + y] && b[y] == BlankRow(m);
      }
    }
  }

  class Display {
    const mode: Mode
    const buffered: bool
    const hw: array<Row>
    const back: array<Row>
    var top: nat
    var dirtyMin: nat
    var dirtyMax: nat

    /** Everything but the blank rows below the window. */
    ghost predicate Framed()
      reads this, hw, back
    {
      && mode.Ok() && hw != back && hw.Length == mode.height && back.Length == 2 * mode.height
      && (forall y :: 0 <= y < hw.Length ==> mode.RowOk(hw[y]))
      && (forall y :: 0 <= y < back.Length ==> mode.RowOk(back[y]))
      && top <= mode.height && (!buffered ==> top == 0)
    }

    ghost predicate Valid()
      reads this, hw, back
      ensures Valid() ==> Framed()
    {
      Framed() && forall y :: top + mode.height <= y < back.Length ==> back[y] == BlankRow(mode)
    }

    ghost function State(): (r: Ring)
      reads this, back
    {
      Ring(back[..], top)
    }

    /** What the user is to see. */
    ghost function View(): (s: seq<Row>)
      reads this, hw, back
      requires Framed()
      ensures mode.Ok() && mode.ScreenOk(s)
    {
      if buffered then back[top..top + mode.height] else hw[..]
    }

    /** Hardware rows outside the dirty interval agree with the window. */
    ghost predicate Synced()
      reads this, hw, back
      requires Framed()
    {
      buffered ==> forall y :: 0 <= y < mode.height && !(dirtyMin <= y < dirtyMax) ==> hw[y] == back[top + y]
    }

    constructor (mode: Mode, buffered: bool, hw: array<Row>)
      requires mode.Ok() && hw.Length == mode.height && forall y :: 0 <= y < hw.Length ==> mode.RowOk(hw[y])
      ensures Valid() && this.mode == mode && this.buffered == buffered && this.hw == hw && fresh(back)
      ensures buffered ==> View() == seq(mode.height, _ => BlankRow(mode))
    {
      this.mode, this.buffered, this.hw := mode, buffered, hw;
      top, dirtyMin, dirtyMax := 0, mode.height, 0;
      back := new Row[2 * mode.height](_ => BlankRow(mode));
    }

    /** fb_mark_dirty. */
    method MarkDirty(y: nat)
      modifies this`dirtyMin, this`dirtyMax
      ensures dirtyMin == Min(old(dirtyMin), y)
      ensures dirtyMax == if y + 1 > old(dirtyMax) then y + 1 else old(dirtyMax)
    {
      if y < dirtyMin {
        dirtyMin := y;
      }
      if y + 1 > dirtyMax {
        dirtyMax := y + 1;
      }
    }

    /** A stored row together with its dirty mark. */
    method StoreRow(y: nat, r: Row)
      requires Valid() && y < mode.height && mode.RowOk(r)
      modifies this`dirtyMin, this`dirtyMax, hw, back
      ensures Valid() && View() == old(View())[y := r] && (old(Synced()) ==> Synced())
      ensures dirtyMin <= y < dirtyMax && dirtyMin <= old(dirtyMin) && old(dirtyMax) <= dirtyMax
    {
      hide Mode.Ok;
      if buffered {
        back[top + y] := r;
      } else {
        hw[y] := r;
      }
      MarkDirty(y);
      assert View() == old(View())[y := r];
    }

    method LoadRow(y: nat) returns (r: Row)
      requires Valid() && y < mode.height
      ensures r == View()[y]
    {
      r := if buffered then back[top + y] else hw[y];
    }

    /** framebuffer_putpixel. */
    method PutPixel(x: nat, y: nat, color: bv32)
      requires Valid()
      modifies this`dirtyMin, this`dirtyMax, hw, back
      ensures Valid() && View() == Screen.PutPixel(mode, old(View()), x, y, color) && (old(Synced()) ==> Synced())
    {
      hide Paint, Pack, Mode.Ok, Valid, View, Synced;
      if x >= mode.width || y >= mode.height {
        return;
      }
      var r := LoadRow(y);
      StoreRow(y, Paint(mode, r, x, Pack(mode, color)));
    }

    /** framebuffer_putpixels. */
    method PutPixels(x: nat, y: nat, colors: seq<bv32>)
      requires Valid()
      modifies this`dirtyMin, this`dirtyMax, hw, back
      ensures Valid() && View() == Screen.PutPixels(mode, old(View()), x, y, colors) && (old(Synced()) ==> Synced())
    {
      hide Paint, Pack, Mode.Ok, Valid, View, Synced;
      if y >= mode.height || x >= mode.width || colors == [] {
        if y < mode.height && x < mode.width {
          assert View()[y := View()[y]] == View();
        }
        return;
      }
      var count := Min(|colors|, mode.width - x);
      var r := LoadRow(y);
      if Canonical(mode) {
        r := PaintWords(r, x, colors[..count]);
      } else {
        r := PaintWords(r, x, PackAll(mode, colors[..count]));
      }
      StoreRow(y, r);
    }

    /** A run of words into a row, one pixel at a time. */
    method PaintWords(row: Row, x: nat, vs: seq<bv32>) returns (r: Row)
      requires mode.Ok() && mode.RowOk(row) && x + |vs| <= mode.width
      ensures mode.RowOk(r) && r == PaintAll(mode, row, x, vs)
    {
      hide Paint, Mode.Ok;
      r := row;
      var i := 0;
      while i < |vs|
        invariant 0 <= i <= |vs| && mode.RowOk(r)
        invariant PaintAll(mode, r, x + i, vs[i..]) == PaintAll(mode, row, x, vs)
      {
        assert vs[i..][1..] == vs[i + 1..];
        r := Paint(mode, r, x + i, vs[i]);
        i := i + 1;
      }
    }

    /** One row of fb_fill_rect_fast: four pixels a turn, then the tail. */
    method FillRowFast(row: Row, x: nat, w: nat, v: bv32) returns (r: Row)
      requires mode.Ok() && mode.RowOk(row) && x + w <= mode.width
      ensures mode.RowOk(r) && r == PaintAll(mode, row, x, Repeat(v, w))
    {
      hide Paint, Mode.Ok;
      r := row;
      var i, end := x, x + w;
      while i + 4 <= end
        invariant x <= i <= end && mode.RowOk(r)
        invariant PaintAll(mode, r, i, Repeat(v, end - i)) == PaintAll(mode, row, x, Repeat(v, w))
      {
        FourMore(mode, r, i, end - i, v);
        r := Paint(mode, Paint(mode, Paint(mode, Paint(mode, r, i, v), i + 1, v), i + 2, v), i + 3, v);
        i := i + 4;
      }
      while i < end
        invariant x <= i <= end && mode.RowOk(r)
        invariant PaintAll(mode, r, i, Repeat(v, end - i)) == PaintAll(mode, row, x, Repeat(v, w))
      {
        OneMore(mode, r, i, end - i, v);
        r := Paint(mode, r, i, v);
        i := i + 1;
      }
    }

    /** framebuffer_fill_rect. */
    method FillRect(x: nat, y: nat, width: nat, height: nat, color: bv32)
      requires Valid()
      modifies this`dirtyMin, this`dirtyMax, hw, back
      ensures Valid() && View() == PutRect(mode, old(View()), x, y, width, height, color) && (old(Synced()) ==>
              Synced())
      ensures width > 0 && height > 0 && x < mode.width && y < mode.height ==>
                dirtyMin <= y && y + Min(height, mode.height - y) <= dirtyMax
    {
      hide Paint, Pack, Mode.Ok, PutRow, Valid, View, Synced;
      ghost var s := View();
      if width == 0 || height == 0 || x >= mode.width || y >= mode.height {
        PutRectNothing(mode, View(), x, y, width, height, color);
        return;
      }
      var w, h := Min(width, mode.width - x), Min(height, mode.height - y);
      var v := Pack(mode, color);
      var yy := y;
      while yy < y + h
        invariant y <= yy <= y + h && Valid() && (old(Synced()) ==> Synced())
        invariant y < yy ==> dirtyMin <= y && yy <= dirtyMax
        invariant PutRect(mode, View(), x, yy, width, height - (yy - y), color)
               == PutRect(mode, old(View()), x, y, width, height, color)
      {
        PutRectRow(mode, View(), x, yy, width, height - (yy - y), color);
        var r := LoadRow(yy);
        if mode.bytesPp == 4 {
          r := FillRowFast(r, x, w, v);
        } else {
          r := PaintWords(r, x, Repeat(v, w));
        }
        StoreRow(yy, r);
        yy := yy + 1;
      }
      PutRectNothing(mode, View(), x, yy, width, height - h, color);
    }

    /** fb_copy_fast over the rows [from, to) of the window. */
    method CopyRows(from: nat, to: nat)
      requires Framed() && buffered && to <= mode.height
      modifies hw
      ensures Framed() && (old(Valid()) ==> Valid())
      ensures forall y :: 0 <= y < mode.height ==> hw[y] == if from <= y < to then back[top + y] else old(hw[y])
    {
      hide Mode.Ok;
      var y := from;
      while y < to
        invariant from <= y && Framed() && back[..] == old(back[..])
        invariant forall k :: 0 <= k < mode.height ==>
                    hw[k] == if from <= k < y && k < to then back[top + k] else old(hw[k])
      {
        hw[y] := back[top + y];
        y := y + 1;
      }
    }

    /** The copying part of framebuffer_flush. */
    method PushDirty()
      requires Framed() && buffered
      modifies this`dirtyMax, hw
      ensures Framed() && (old(Valid()) ==> Valid()) && back[..] == old(back[..])
      ensures old(Synced()) ==> forall y :: 0 <= y < mode.height ==> hw[y] == back[top + y]
    {
      hide Mode.Ok, View;
      if dirtyMax > mode.height {
        dirtyMax := mode.height;
      }
      if dirtyMin == 0 && dirtyMax == mode.height {
        CopyRows(0, mode.height);
      } else {
        CopyRows(dirtyMin, dirtyMax);
      }
    }

    /** framebuffer_flush. */
    method Flush()
      requires Framed()
      modifies this`dirtyMin, this`dirtyMax, hw
      ensures Framed() && (old(Valid()) ==> Valid()) && View() == old(View())
      ensures old(Synced()) ==> Synced() && hw[..] == View()
    {
      hide Mode.Ok, BlankRow;
      if dirtyMin >= dirtyMax {
        assert old(Synced()) && buffered ==> hw[..] == back[top..top + mode.height];
        return;
      }
      if buffered {
        PushDirty();
        assert old(Synced()) ==> hw[..] == back[top..top + mode.height];
      }
      dirtyMin, dirtyMax := mode.height, 0;
    }

    /** framebuffer_clear: from here on hardware and window are in step. */
    method Clear(color: bv32)
      requires Valid()
      modifies this`dirtyMin, this`dirtyMax, hw, back
      ensures Valid() && View() == PutRect(mode, old(View()), 0, 0, mode.width, mode.height, color)
      ensures Synced() && hw[..] == View()
    {
      hide PutRect;
      FillRect(0, 0, mode.width, mode.height, color);
      Flush();
    }

    /** framebuffer_buffer_free_past. */
    method FreePast(lines: nat)
      requires Valid() && buffered
      modifies this`top, back
      ensures Valid() && View() == old(View())
      ensures State() ==
              if old(top) + lines + mode.height <= 2 * mode.height then old(State())
              else Ring(old(View()) + seq(mode.height, _ => BlankRow(mode)), 0)
    {
      hide Mode.Ok;
      if top + lines + mode.height <= back.Length {
        return;
      }
      MoveWindow();
      var y := mode.height;
      while y < back.Length
        invariant mode.height <= y <= back.Length
        invariant forall k :: 0 <= k < back.Length ==> mode.RowOk(back[k])
        invariant back[..mode.height] == old(View())
        invariant forall k :: mode.height <= k < y ==> back[k] == BlankRow(mode)
      {
        back[y] := BlankRow(mode);
        y := y + 1;
      }
      top := 0;
      assert back[..] == old(View()) + seq(mode.height, _ => BlankRow(mode));
    }

    /** The memmove of the window to the start of the buffer. */
    method MoveWindow()
      requires Valid() && buffered
      modifies back
      ensures back[..mode.height] == old(View()) && forall k :: 0 <= k < back.Length ==> mode.RowOk(back[k])
      ensures hw[..] == old(hw[..])
    {
      hide Mode.Ok;
      var y := 0;
      while y < mode.height
        invariant 0 <= y <= mode.height
        invariant forall k :: 0 <= k < back.Length ==> mode.RowOk(back[k])
        invariant forall k :: 0 <= k < y ==> back[k] == old(back[top + k])
        invariant forall k :: y <= k < back.Length ==> back[k] == old(back[k])
        invariant hw[..] == old(hw[..])
      {
        back[y] := back[top + y];
        y := y + 1;
      }
    }

    /** Compaction if needed, then the advance of the window; the result says whether it is still inside the buffer. */
    method Advance(lines: nat) returns (inside: bool)
      requires Valid() && buffered && 0 < lines < 2 * mode.height
      modifies this`top, this`dirtyMin, this`dirtyMax, back
      ensures State() == Scrolled(mode, old(State()), lines)
      ensures inside <==> lines <= mode.height
      ensures inside ==> Framed() && Synced()
    {
      hide Mode.Ok, BlankRow;
      FreePast(lines);
      top := top + lines;
      dirtyMin, dirtyMax := 0, mode.height;
      inside := top + mode.height <= back.Length;
    }

    /** The direct path: memmove of the remaining rows, then blank rows. */
    method ScrollDirect(lines: nat)
      requires Valid() && !buffered
      modifies hw
      ensures Valid() && View() == Screen.ScrollUp(mode, old(View()), lines)
    {
      hide Mode.Ok;
      var keep := if lines >= mode.height then 0 else mode.height - lines;
      var y := 0;
      while y < keep
        invariant 0 <= y <= keep
        invariant forall k :: 0 <= k < hw.Length ==> mode.RowOk(hw[k])
        invariant forall k :: 0 <= k < y ==> hw[k] == old(hw[k + lines])
        invariant forall k :: y <= k < hw.Length ==> hw[k] == old(hw[k])
        invariant back[..] == old(back[..])
      {
        hw[y] := hw[y + lines];
        y := y + 1;
      }
      while y < mode.height
        invariant keep <= y <= mode.height
        invariant forall k :: 0 <= k < hw.Length ==> mode.RowOk(hw[k])
        invariant forall k :: 0 <= k < keep ==> hw[k] == old(hw[k + lines])
        invariant forall k :: keep <= k < y ==> hw[k] == BlankRow(mode)
        invariant back[..] == old(back[..])
      {
        hw[y] := BlankRow(mode);
        y := y + 1;
      }
      assert forall k :: 0 <= k < back.Length ==> back[k] == back[..][k];
    }

    /** The clearing branch of framebuffer_scroll_up: only the first screen of the buffer is blanked. */
    method ClearTop()
      requires Framed() && buffered
      modifies this`top, this`dirtyMin, this`dirtyMax, back
      ensures Framed() && Synced() && top == 0
      ensures back[..] == seq(mode.height, _ => BlankRow(mode)) + old(back[mode.height..])
    {
      hide Mode.Ok;
      top := 0;
      var y := 0;
      while y < mode.height
        modifies back
        invariant 0 <= y <= mode.height
        invariant forall k :: 0 <= k < back.Length ==> back[k] == if k < y then BlankRow(mode) else old(back[k])
        invariant hw[..] == old(hw[..])
      {
        back[y] := BlankRow(mode);
        y := y + 1;
      }
      assert forall k :: 0 <= k < hw.Length ==> hw[k] == hw[..][k];
      dirtyMin, dirtyMax := 0, mode.height;
    }

    /** framebuffer_scroll_up; the result says whether the window is still inside the buffer when it is flushed. */
    method ScrollUp(lines: nat) returns (inside: bool)
      requires Valid()
      modifies this`top, this`dirtyMin, this`dirtyMax, hw, back
      ensures inside <==> !buffered || lines <= mode.height || lines >= 2 * mode.height
      ensures buffered ==> State() == Scrolled(mode, old(State()), lines)
      ensures inside ==> Framed() && View() == Screen.ScrollUp(mode, old(View()), lines) && (old(Synced()) ==> Synced())
      ensures inside && buffered && lines > 0 ==> Synced() && hw[..] == View()
      ensures inside && !buffered ==> Valid()
      ensures inside && buffered ==>
                (Valid() <==> lines <= mode.height || AllBlank(mode, old(View())[mode.height - old(top)..]))
    {
      hide Mode.Ok, Valid, View, Synced, Framed, Scrolled, Screen.ScrollUp;
      if lines == 0 {
        NoLines();
        return true;
      }
      if buffered {
        inside := ScrollBuffered(lines);
        return;
      }
      ScrollDirect(lines);
      Unbuffered();
      Flush();
      return true;
    }

    /** The back-buffer branch. */
    method ScrollBuffered(lines: nat) returns (inside: bool)
      requires Valid() && buffered && lines > 0
      modifies this`top, this`dirtyMin, this`dirtyMax, hw, back
      ensures inside <==> lines <= mode.height || lines >= 2 * mode.height
      ensures State() == Scrolled(mode, old(State()), lines)
      ensures inside ==>
                && Framed() && View() == Screen.ScrollUp(mode, old(View()), lines) && Synced() && hw[..] == View()
                && (Valid() <==> lines <= mode.height || AllBlank(mode, old(View())[mode.height - old(top)..]))
    {
      hide Mode.Ok, Valid, View, Synced, Framed, Scrolled, Screen.ScrollUp, AllBlank;
      Buffered();
      ScrollShows(mode, State(), lines);
      ScrollClean(mode, State(), lines);
      if lines >= back.Length {
        ClearTop();
        inside := true;
        ClearTopScrolls(mode, old(State()), lines);
      } else {
        inside := Advance(lines);
      }
      if inside {
        Buffered();
        Flush();
        Buffered();
      }
    }

    lemma NoLines()
      requires Valid()
      ensures Framed() && View() == Screen.ScrollUp(mode, View(), 0)
      ensures buffered ==> State() == Scrolled(mode, State(), 0)
    {
      assert View()[0..] + [] == View();
    }

    lemma Buffered()
      requires Framed() && buffered
      ensures State().Inside(mode) && View() == State().Shown(mode) && mode.height > 0
      ensures Valid() <==> State().Clean(mode)
      ensures back.Length == 2 * mode.height
    {
      var rows := back[..][top + mode.height..];
      assert forall y :: 0 <= y < |rows| ==> rows[y] == back[top + mode.height + y];
      assert forall y :: top + mode.height <= y < back.Length ==> back[y] == rows[y - (top + mode.height)];
    }

    lemma Unbuffered()
      requires Valid() && !buffered
      ensures Synced()
    {}

    /** One operation of a run. */
    method Do(op: Op)
      requires Valid() && (buffered ==> Safe(mode, View(), top, op))
      modifies this`top, this`dirtyMin, this`dirtyMax, hw, back
      ensures Valid() && View() == Step(mode, old(View()), op) && (old(Synced()) ==> Synced())
      ensures buffered ==> top == NextTop(mode, old(top), op)
    {
      hide Mode.Ok, Valid, View, Synced, PutRect, Screen.PutPixels, Screen.PutPixel, Screen.ScrollUp;
      match op
      case Pixel(x, y, color) => PutPixel(x, y, color);
      case Pixels(x, y, colors) => PutPixels(x, y, colors);
      case Rect(x, y, w, h, color) => FillRect(x, y, w, h, color);
      case Scroll(lines) => var inside := ScrollUp(lines);
      case Flush => Flush();
    }

    /** Over any run the visible screen is that of a plain screen, and a final flush puts it on the hardware. */
    method RunAll(ops: seq<Op>)
      requires Valid() && Synced() && (buffered ==> SafeRun(mode, View(), top, ops))
      modifies this`top, this`dirtyMin, this`dirtyMax, hw, back
      ensures Valid() && Synced() && View() == Run(mode, old(View()), ops) && hw[..] == View()
    {
      hide Mode.Ok, Valid, View, Synced, Step, Safe, NextTop;
      var i := 0;
      assert ops[0..] == ops;
      while i < |ops|
        invariant 0 <= i <= |ops| && Valid() && Synced() && (buffered ==> SafeRun(mode, View(), top, ops[i..]))
        invariant Run(mode, View(), ops[i..]) == Run(mode, old(View()), ops)
      {
        assert ops[i..][1..] == ops[i + 1..];
        Do(ops[i]);
        i := i + 1;
      }
      Flush();
    }
  }

  lemma PutRectNothing(m: Mode, s: seq<Row>, x: nat, y: nat, w: nat, h: nat, color: bv32)
    requires m.Ok() && m.ScreenOk(s) && (x >= m.width || y >= m.height || w == 0 || h == 0)
    ensures PutRect(m, s, x, y, w, h, color) == s
  {
    if h > 0 {
      PutRectOutside(m, s, x, y, w, h, color);
    }
  }

  lemma OneMore(m: Mode, r: Row, x: nat, n: nat, v: bv32)
    requires m.Ok() && m.RowOk(r) && x + n <= m.width && n > 0
    ensures PaintAll(m, r, x, Repeat(v, n)) == PaintAll(m, Paint(m, r, x, v), x + 1, Repeat(v, n - 1))
  {
    hide Paint, Mode.Ok;
    assert Repeat(v, n)[1..] == Repeat(v, n - 1);
  }

  lemma FourMore(m: Mode, r: Row, x: nat, n: nat, v: bv32)
    requires m.Ok() && m.RowOk(r) && x + n <= m.width && n >= 4
    ensures PaintAll(m, r, x, Repeat(v, n)) ==
            var r4 := Paint(m, Paint(m, Paint(m, Paint(m, r, x, v), x + 1, v), x + 2, v), x + 3, v);
            PaintAll(m, r4, x + 4, Repeat(v, n - 4))
  {
    hide Paint, Mode.Ok, PaintAll;
    var r1 := Paint(m, r, x, v);
    var r2 := Paint(m, r1, x + 1, v);
    var r3 := Paint(m, r2, x + 2, v);
    OneMore(m, r, x, n, v);
    OneMore(m, r1, x + 1, n - 1, v);
    OneMore(m, r2, x + 2, n - 2, v);
    OneMore(m, r3, x + 3, n - 3, v);
  }
}
