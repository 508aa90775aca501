/** The frame buffer and the single-pixel write every primitive goes
    through (frameBuffer and draw_pixel in main.cpp), plus the fold that
    turns a primitive's sequence of draw_pixel calls into a buffer update.

    Every primitive of the rasteriser is modelled in two parts: the
    sequence of points it hands to draw_pixel, in the source's order, and
    `PaintAll`, which applies draw_pixel to each of them in turn. */
module Raster {
  import opened Arith
  import opened Pixel

  datatype Point = Point(x: int, y: int)

  /** A width x height row-major buffer of packed colours. */
  datatype Frame = Frame(width: int, height: int, pixels: seq<Color>) {

    predicate Valid() {
      width > 0 && height > 0 && |pixels| == width * height
    }

    /** (x, y) lies in [0, width) x [0, height). */
    predicate Contains(x: int, y: int) {
      0 <= x < width && 0 <= y < height
    }

    function At(x: int, y: int): Color
      requires Valid() && Contains(x, y)
    {
      IndexInRange(width, height, x, y);
      pixels[y * width + x]
    }
  }

  lemma IndexInRange(w: int, h: int, x: int, y: int)
    requires 0 <= x < w && 0 <= y < h
    ensures 0 <= y * w + x < w * h
  {
    assert y * w + x < (y + 1) * w;
    assert (y + 1) * w <= h * w;
  }

  /** Row-major indexing is one-to-one on the buffer's rectangle. */
  lemma IndexInjective(w: int, x1: int, y1: int, x2: int, y2: int)
    requires 0 <= x1 < w && 0 <= x2 < w
    requires y1 * w + x1 == y2 * w + x2
    ensures x1 == x2 && y1 == y2
  {
    assert (y2 - y1) * w == x1 - x2;
    MultipleMagnitude(y2 - y1, w);
  }

  /** The buffer as the source allocates it: every pixel opaque black. */
  function NewFrame(w: int, h: int): (f: Frame)
    requires w > 0 && h > 0
    ensures f.Valid() && f.width == w && f.height == h
    ensures forall x, y :: f.Contains(x, y) ==> f.At(x, y) == 0xFF00_0000
  {
    var f := Frame(w, h, seq(w * h, _ => 0xFF00_0000));
    forall x, y | f.Contains(x, y)
      ensures f.At(x, y) == 0xFF00_0000
    {
      IndexInRange(w, h, x, y);
    }
    f
  }

  /** The buffer with the pixel at (x, y) replaced by `v`. */
  function Store(f: Frame, x: int, y: int, v: Color): (g: Frame)
    requires f.Valid() && f.Contains(x, y)
    ensures g.Valid() && g.width == f.width && g.height == f.height
    ensures forall px, py :: f.Contains(px, py) ==>
      g.At(px, py) == if px == x && py == y then v else f.At(px, py)
  {
    IndexInRange(f.width, f.height, x, y);
    var g := f.(pixels := f.pixels[y * f.width + x := v]);
    forall px, py | f.Contains(px, py)
      ensures g.At(px, py) == if px == x && py == y then v else f.At(px, py)
    {
      IndexInRange(f.width, f.height, px, py);
      if py * f.width + px == y * f.width + x {
        IndexInjective(f.width, px, py, x, y);
      }
    }
    g
  }

  /** draw_pixel with the default coverage 1.0: a write outside the buffer
      is dropped; otherwise the colour is blended onto the pixel at (x, y)
      and no other pixel changes. */
  function DrawPixel(f: Frame, x: int, y: int, c: Color): (g: Frame)
    requires f.Valid()
    ensures g.Valid() && g.width == f.width && g.height == f.height
    ensures !f.Contains(x, y) ==> g == f
    ensures forall px, py :: f.Contains(px, py) ==>
      g.At(px, py) == if px == x && py == y then Blend(f.At(x, y), c) else f.At(px, py)
  {
    if !f.Contains(x, y) then f else Store(f, x, y, Blend(f.At(x, y), c))
  }

  /** Two valid frames of the same size that agree on every pixel are equal. */
  lemma FrameExtensionality(f: Frame, g: Frame)
    requires f.Valid() && g.Valid() && f.width == g.width && f.height == g.height
    requires forall x, y :: f.Contains(x, y) ==> f.At(x, y) == g.At(x, y)
    ensures f == g
  {
    forall i | 0 <= i < |f.pixels|
      ensures f.pixels[i] == g.pixels[i]
    {
      var x, y := CellOf(i, f.width, f.height);
      assert f.At(x, y) == g.At(x, y);
    }
  }

  /** The pixel stored at index i of a w x h buffer. */
  lemma CellOf(i: int, w: int, h: int) returns (x: int, y: int)
    requires w > 0 && 0 <= i < w * h
    ensures 0 <= x < w && 0 <= y < h && i == y * w + x
  {
    x, y := i % w, i / w;
    if y >= h {
      MulMono(h, y, w);
    }
  }

  /** The points (x0, y), (x0 + 1, y), ..., (x1, y): one inner `for` loop
      over a row; empty when x1 < x0. */
  function Span(y: int, x0: int, x1: int): (s: seq<Point>)
    ensures |s| == if x1 < x0 then 0 else x1 - x0 + 1
    ensures forall i :: 0 <= i < |s| ==> s[i] == Point(x0 + i, y)
    ensures forall p :: p in s <==> p.y == y && x0 <= p.x <= x1
  {
    var s := seq(if x1 < x0 then 0 else x1 - x0 + 1, i => Point(x0 + i, y));
    assert forall p: Point | p.y == y && x0 <= p.x <= x1 :: s[p.x - x0] == p;
    s
  }

  /** No point occurs twice. */
  predicate NoDup(s: seq<Point>) {
    forall i, j :: 0 <= i < j < |s| ==> s[i] != s[j]
  }

  lemma SpanNoDup(y: int, x0: int, x1: int)
    ensures NoDup(Span(y, x0, x1))
  {}

  /** A repeated entry in `b` is a repeated entry in `a + b`. */
  lemma DupInSuffix(a: seq<Point>, b: seq<Point>, i: int, j: int)
    requires 0 <= i < |b| && 0 <= j < |b| && i != j && b[i] == b[j]
    ensures !NoDup(a + b)
  {
    var s := a + b;
    if i < j {
      assert s[|a| + i] == s[|a| + j];
    } else {
      assert s[|a| + j] == s[|a| + i];
    }
  }

  lemma NoDupConcat(a: seq<Point>, b: seq<Point>)
    requires NoDup(a) && NoDup(b)
    requires forall p :: p in a ==> p !in b
    ensures NoDup(a + b)
  {
    var s := a + b;
    forall i, j | 0 <= i < j < |s|
      ensures s[i] != s[j]
    {
      if i < |a| && |a| <= j {
        assert s[i] in a && s[j] == b[j - |a|];
      }
    }
  }

  /** A point of a sequence without repeats occurs in it exactly once. */
  lemma {:induction false} NoDupCount(s: seq<Point>, p: Point)
    requires NoDup(s) && p in s
    ensures multiset(s)[p] == 1
    decreases |s|
  {
    assert s == [s[0]] + s[1..];
    if s[0] == p {
      assert p !in s[1..] by {
        forall k | 0 <= k < |s| - 1
          ensures s[1..][k] != p
        {
          assert s[1..][k] == s[k + 1];
        }
      }
    } else {
      NoDupCount(s[1..], p);
    }
  }

  /** The effect of calling draw_pixel on each point of `pts` in order.
      A pixel none of the points names keeps its colour; for an opaque
      colour, every named pixel inside the buffer ends up exactly that
      colour, however often it was named. */
  function PaintAll(f: Frame, pts: seq<Point>, c: Color): (g: Frame)
    requires f.Valid()
    ensures g.Valid() && g.width == f.width && g.height == f.height
    ensures forall x, y :: f.Contains(x, y) && Point(x, y) !in pts ==> g.At(x, y) == f.At(x, y)
    ensures Opaque(c) ==>
      forall x, y :: f.Contains(x, y) && Point(x, y) in pts ==> g.At(x, y) == c
    decreases |pts|
  {
    if |pts| == 0 then f
    else
      var f1 := DrawPixel(f, pts[0].x, pts[0].y, c);
      var g := PaintAll(f1, pts[1..], c);
      assert forall p :: p in pts <==> p == pts[0] || p in pts[1..];
      g
  }

  /** Painting a sequence in two parts is painting the first part and then
      the second. */
  lemma {:induction false} PaintAllConcat(f: Frame, a: seq<Point>, b: seq<Point>, c: Color)
    requires f.Valid()
    ensures PaintAll(f, a + b, c) == PaintAll(PaintAll(f, a, c), b, c)
    decreases |a|
  {
    if |a| > 0 {
      var f1 := DrawPixel(f, a[0].x, a[0].y, c);
      assert (a + b)[1..] == a[1..] + b;
      PaintAllConcat(f1, a[1..], b, c);
    } else {
      assert a + b == b;
    }
  }

  /** When no point repeats, every named pixel inside the buffer is
      blended exactly once, whatever the colour's alpha. */
  lemma {:induction false} PaintAllOnce(f: Frame, pts: seq<Point>, c: Color, x: int, y: int)
    requires f.Valid() && NoDup(pts) && f.Contains(x, y) && Point(x, y) in pts
    ensures PaintAll(f, pts, c).At(x, y) == Blend(f.At(x, y), c)
    decreases |pts|
  {
    var f1 := DrawPixel(f, pts[0].x, pts[0].y, c);
    if pts[0] == Point(x, y) {
      assert Point(x, y) !in pts[1..] by {
        forall k | 0 <= k < |pts| - 1
          ensures pts[1..][k] != Point(x, y)
        {
          assert pts[1..][k] == pts[k + 1];
        }
      }
    } else {
      assert Point(x, y) in pts[1..];
      PaintAllOnce(f1, pts[1..], c, x, y);
    }
  }

  /** In general a pixel ends up blended with `c` once for every time the
      sequence names it. */
  lemma {:induction false} PaintAllCount(f: Frame, pts: seq<Point>, c: Color, x: int, y: int)
    requires f.Valid() && f.Contains(x, y)
    ensures PaintAll(f, pts, c).At(x, y) == BlendRepeated(f.At(x, y), c, multiset(pts)[Point(x, y)])
    decreases |pts|
  {
    if |pts| > 0 {
      var q := Point(x, y);
      var f1 := DrawPixel(f, pts[0].x, pts[0].y, c);
      var n := multiset(pts[1..])[q];
      assert multiset(pts)[q] == n + (if pts[0] == q then 1 else 0) by {
        assert pts == [pts[0]] + pts[1..];
      }
      PaintAllCount(f1, pts[1..], c, x, y);
      assert PaintAll(f, pts, c) == PaintAll(f1, pts[1..], c);
      if pts[0] == q {
        assert f1.At(x, y) == Blend(f.At(x, y), c);
      } else {
        assert f1.At(x, y) == f.At(x, y);
      }
    }
  }

  /** Points that fall outside the buffer do not matter: painting only the
      in-buffer points has the same effect. This is why the explicit
      clamping in draw_filled_circle and draw_filled_polygon does not
      change what they draw. */
  lemma {:induction false} PaintAllInBoundsOnly(f: Frame, pts: seq<Point>, c: Color)
    requires f.Valid()
    ensures PaintAll(f, InBounds(f, pts), c) == PaintAll(f, pts, c)
    decreases |pts|
  {
    if |pts| > 0 {
      var p := pts[0];
      var rest := pts[1..];
      var f1 := DrawPixel(f, p.x, p.y, c);
      SameSizeSameBounds(f, f1, rest);
      PaintAllInBoundsOnly(f1, rest, c);
      if f.Contains(p.x, p.y) {
        var kept := [p] + InBounds(f, rest);
        assert InBounds(f, pts) == kept;
        assert kept[0] == p && kept[1..] == InBounds(f, rest);
      } else {
        assert InBounds(f, pts) == InBounds(f, rest);
        assert f1 == f;
      }
    }
  }

  lemma {:induction false} SameSizeSameBounds(f: Frame, g: Frame, pts: seq<Point>)
    requires f.width == g.width && f.height == g.height
    ensures InBounds(f, pts) == InBounds(g, pts)
    decreases |pts|
  {
    if |pts| > 0 {
      SameSizeSameBounds(f, g, pts[1..]);
    }
  }

  /** The points of `pts` that lie inside `f`, in order. */
  function InBounds(f: Frame, pts: seq<Point>): (r: seq<Point>)
    ensures forall p :: p in r <==> p in pts && f.Contains(p.x, p.y)
    decreases |pts|
  {
    if |pts| == 0 then []
    else
      assert forall p :: p in pts <==> p == pts[0] || p in pts[1..];
      (if f.Contains(pts[0].x, pts[0].y) then [pts[0]] else []) + InBounds(f, pts[1..])
  }
}
