/** Filled and stroked axis-aligned rectangles (draw_filled_rect and
    draw_rect in main.cpp). */
module Rect {
  import opened Pixel
  import opened Raster

  /** (px, py) lies in the half-open box [x, x + w) x [y, y + h). */
  predicate InBox(x: int, y: int, w: int, h: int, px: int, py: int) {
    x <= px < x + w && y <= py < y + h
  }

  /** The first `k` rows of the filled rectangle, row by row, left to right
      within a row: the order of draw_filled_rect's two loops. */
  function FilledRows(x: int, y: int, w: int, k: int): (r: seq<Point>)
    ensures forall p :: p in r <==> InBox(x, y, w, k, p.x, p.y)
    ensures NoDup(r)
    ensures k <= 0 || w <= 0 ==> r == []
    decreases k
  {
    if k <= 0 then []
    else
      var above := FilledRows(x, y, w, k - 1);
      var row := Span(y + k - 1, x, x + w - 1);
      SpanNoDup(y + k - 1, x, x + w - 1);
      NoDupConcat(above, row);
      above + row
  }

  /** draw_filled_rect: every pixel of [x, x + w) x [y, y + h) inside the
      buffer is blended exactly once with `c`; no other pixel changes, and
      a box with w <= 0 or h <= 0 draws nothing. */
  function DrawFilledRect(f: Frame, x: int, y: int, w: int, h: int, c: Color): (g: Frame)
    requires f.Valid()
    ensures g.Valid() && g.width == f.width && g.height == f.height
    ensures w <= 0 || h <= 0 ==> g == f
    ensures forall px, py :: f.Contains(px, py) && !InBox(x, y, w, h, px, py) ==>
      g.At(px, py) == f.At(px, py)
    ensures forall px, py :: f.Contains(px, py) && InBox(x, y, w, h, px, py) ==>
      g.At(px, py) == Blend(f.At(px, py), c)
  {
    var pts := FilledRows(x, y, w, h);
    var g := PaintAll(f, pts, c);
    forall px, py | f.Contains(px, py) && InBox(x, y, w, h, px, py)
      ensures g.At(px, py) == Blend(f.At(px, py), c)
    {
      PaintAllOnce(f, pts, c, px, py);
    }
    g
  }

  /** The left and right edge pixels of one middle row: for j = 0 .. k - 1,
      first (x + j, row) then (x + w - j - 1, row). */
  function SideColumns(x: int, row: int, w: int, k: int): (r: seq<Point>)
    ensures |r| == if k <= 0 then 0 else 2 * k
    ensures forall j :: 0 <= j < k ==>
      r[2 * j] == Point(x + j, row) && r[2 * j + 1] == Point(x + w - j - 1, row)
    ensures forall p :: p in r <==>
      p.y == row && (x <= p.x < x + k || x + w - k <= p.x < x + w)
    decreases k
  {
    if k <= 0 then []
    else
      var before := SideColumns(x, row, w, k - 1);
      var r := before + [Point(x + k - 1, row), Point(x + w - k, row)];
      assert forall j :: 0 <= j < k - 1 ==> r[2 * j] == before[2 * j] && r[2 * j + 1] == before[2 * j + 1];
      r
  }

  /** Row i of draw_rect: the first and last rows in full, every other row
      only its `lW` leftmost and `lW` rightmost pixels. */
  function StrokeRow(x: int, y: int, w: int, h: int, lW: int, i: int): (r: seq<Point>)
    ensures forall p :: p in r ==> p.y == y + i
  {
    if i == 0 || i == h - 1 then Span(y + i, x, x + w - 1)
    else SideColumns(x, y + i, w, lW)
  }

  /** The pixels draw_rect names, read off the box without reference to
      the loops. Note that nothing confines the side columns to the box:
      with lW > w they reach past it. */
  predicate OnBorder(x: int, y: int, w: int, h: int, lW: int, px: int, py: int) {
    && y <= py < y + h
    && if py == y || py == y + h - 1 then x <= px < x + w
       else x <= px < x + lW || x + w - lW <= px < x + w
  }

  /** The first `k` rows of the stroked rectangle in draw_rect's order;
      up to row h they name exactly the border pixels above row y + k. */
  function StrokeRows(x: int, y: int, w: int, h: int, lW: int, k: int): (r: seq<Point>)
    ensures forall p :: p in r ==> y <= p.y < y + k
    ensures k <= h ==> forall p :: p in r <==> OnBorder(x, y, w, h, lW, p.x, p.y) && p.y < y + k
    decreases k
  {
    if k <= 0 then []
    else
      var above, row := StrokeRows(x, y, w, h, lW, k - 1), StrokeRow(x, y, w, h, lW, k - 1);
      assert k <= h ==> forall p :: p in row <==> OnBorder(x, y, w, h, lW, p.x, p.y) && p.y == y + k - 1 by {
        if k <= h {
          StrokeRowExact(x, y, w, h, lW, k - 1);
        }
      }
      above + row
  }

  /** Row i names exactly the border pixels of that row. */
  lemma StrokeRowExact(x: int, y: int, w: int, h: int, lW: int, i: int)
    requires 0 <= i < h
    ensures forall p :: p in StrokeRow(x, y, w, h, lW, i) <==>
      OnBorder(x, y, w, h, lW, p.x, p.y) && p.y == y + i
  {}

  function StrokePoints(x: int, y: int, w: int, h: int, lW: int): (r: seq<Point>)
    ensures forall p :: p in r <==> OnBorder(x, y, w, h, lW, p.x, p.y)
  {
    StrokeRows(x, y, w, h, lW, h)
  }

  /** draw_rect never names a pixel strictly inside the frame of
      thickness lW: rows 0 < i < h - 1, columns lW <= j < w - lW. */
  lemma StrokeLeavesInterior(x: int, y: int, w: int, h: int, lW: int, i: int, j: int)
    requires 0 < i < h - 1 && lW <= j < w - lW
    ensures Point(x + j, y + i) !in StrokePoints(x, y, w, h, lW)
  {
  }

  lemma SideColumnsNoDup(x: int, row: int, w: int, k: int)
    requires 2 * k <= w
    ensures NoDup(SideColumns(x, row, w, k))
  {
    var r := SideColumns(x, row, w, k);
    forall a, b | 0 <= a < b < |r|
      ensures r[a] != r[b]
    {
      SideColumnAt(x, row, w, k, a);
      SideColumnAt(x, row, w, k, b);
    }
  }

  /** Entry `a` of the side columns, whichever half of its pair it is. */
  lemma SideColumnAt(x: int, row: int, w: int, k: int, a: int)
    requires 0 <= a < |SideColumns(x, row, w, k)|
    ensures SideColumns(x, row, w, k)[a] ==
      if a % 2 == 0 then Point(x + a / 2, row) else Point(x + w - a / 2 - 1, row)
  {
    var j := a / 2;
    if a % 2 == 0 {
      assert a == 2 * j;
    } else {
      assert a == 2 * j + 1;
    }
  }

  /** With the side strokes apart (2 * lW <= w), the stroke names no pixel
      twice. */
  lemma {:induction false} StrokeRowsNoDup(x: int, y: int, w: int, h: int, lW: int, k: int)
    requires k <= h && 2 * lW <= w
    ensures NoDup(StrokeRows(x, y, w, h, lW, k))
    decreases k
  {
    if k > 0 {
      assert NoDup(StrokeRows(x, y, w, h, lW, k - 1)) by {
        StrokeRowsNoDup(x, y, w, h, lW, k - 1);
      }
      StrokeRowAppendNoDup(x, y, w, h, lW, k);
      assert StrokeRows(x, y, w, h, lW, k) == StrokeRows(x, y, w, h, lW, k - 1) + StrokeRow(x, y, w, h, lW, k - 1);
    }
  }

  /** With the side strokes apart, one row names no pixel twice. */
  lemma StrokeRowNoDup(x: int, y: int, w: int, h: int, lW: int, i: int)
    requires 2 * lW <= w
    ensures NoDup(StrokeRow(x, y, w, h, lW, i))
  {
    var r := StrokeRow(x, y, w, h, lW, i);
    if i == 0 || i == h - 1 {
      assert r == Span(y + i, x, x + w - 1);
      SpanNoDup(y + i, x, x + w - 1);
    } else {
      assert r == SideColumns(x, y + i, w, lW);
      SideColumnsNoDup(x, y + i, w, lW);
    }
  }

  /** Appending row k - 1 to the rows above it keeps the points distinct. */
  lemma StrokeRowAppendNoDup(x: int, y: int, w: int, h: int, lW: int, k: int)
    requires 0 < k <= h && 2 * lW <= w
    requires NoDup(StrokeRows(x, y, w, h, lW, k - 1))
    ensures NoDup(StrokeRows(x, y, w, h, lW, k - 1) + StrokeRow(x, y, w, h, lW, k - 1))
  {
    var prev := StrokeRows(x, y, w, h, lW, k - 1);
    var row := StrokeRow(x, y, w, h, lW, k - 1);
    assert NoDup(row) by {
      StrokeRowNoDup(x, y, w, h, lW, k - 1);
    }
    assert forall p :: p in prev ==> p !in row by {
      RowsApart(x, y, w, h, lW, k - 1);
    }
    NoDupConcat(prev, row);
  }

  /** The rows above row i share no pixel with it: they lie higher up. */
  lemma RowsApart(x: int, y: int, w: int, h: int, lW: int, i: int)
    ensures forall p :: p in StrokeRows(x, y, w, h, lW, i) ==> p !in StrokeRow(x, y, w, h, lW, i)
  {
    forall p | p in StrokeRows(x, y, w, h, lW, i)
      ensures p !in StrokeRow(x, y, w, h, lW, i)
    {
      assert p.y < y + i;
    }
  }

  /** When 2 * lW > w the left and right columns of a middle row overlap,
      so some pixel is handed to draw_pixel twice. */
  lemma StrokeOverdraw(x: int, y: int, w: int, h: int, lW: int)
    requires h >= 3 && w >= 1 && 2 * lW > w
    ensures !NoDup(StrokeRows(x, y, w, h, lW, 2))
  {
    var row := SideColumns(x, y + 1, w, lW);
    var first := StrokeRows(x, y, w, h, lW, 1);
    var i, j := SideColumnsRepeat(x, y + 1, w, lW);
    DupInSuffix(first, row, i, j);
    assert StrokeRows(x, y, w, h, lW, 2) == first + row by {
      assert StrokeRow(x, y, w, h, lW, 1) == row;
    }
  }

  /** Overlapping side strokes name some pixel twice within one row. */
  lemma SideColumnsRepeat(x: int, row: int, w: int, lW: int) returns (i: int, j: int)
    requires w >= 1 && 2 * lW > w
    ensures var r := SideColumns(x, row, w, lW);
      0 <= i < |r| && 0 <= j < |r| && i != j && r[i] == r[j]
  {
    var r := SideColumns(x, row, w, lW);
    var j1 := if w <= lW then w - 1 else lW - 1;
    var j2 := w - 1 - j1;
    assert 0 <= j1 < lW && 0 <= j2 < lW;
    i, j := 2 * j1, 2 * j2 + 1;
    assert r[i] == Point(x + j1, row);
    assert r[j] == Point(x + w - j2 - 1, row);
  }

  /** draw_rect's default arguments: a one-pixel stroke in opaque black. */
  const DefaultLineWidth := 1
  const DefaultColor: Color := 0xFF00_0000

  /** draw_rect: pixels off the border are untouched; an opaque colour
      leaves every border pixel inside the buffer exactly that colour, and
      when the two side strokes do not overlap (2 * lW <= w) every border
      pixel is blended exactly once. */
  function DrawRect(f: Frame, x: int, y: int, w: int, h: int, lW: int, c: Color): (g: Frame)
    requires f.Valid()
    ensures g.Valid() && g.width == f.width && g.height == f.height
    ensures forall px, py :: f.Contains(px, py) && !OnBorder(x, y, w, h, lW, px, py) ==>
      g.At(px, py) == f.At(px, py)
    ensures Opaque(c) ==> forall px, py :: f.Contains(px, py) && OnBorder(x, y, w, h, lW, px, py) ==>
      g.At(px, py) == c
    ensures 2 * lW <= w ==> forall px, py :: f.Contains(px, py) && OnBorder(x, y, w, h, lW, px, py) ==>
      g.At(px, py) == Blend(f.At(px, py), c)
  {
    var pts := StrokePoints(x, y, w, h, lW);
    var g := PaintAll(f, pts, c);
    if 2 * lW <= w then
      StrokeRowsNoDup(x, y, w, h, lW, h);
      forall px, py | f.Contains(px, py) && OnBorder(x, y, w, h, lW, px, py)
        ensures g.At(px, py) == Blend(f.At(px, py), c)
      {
        PaintAllOnce(f, pts, c, px, py);
      }
      g
    else g
  }
}
