/** Scanline fill of a closed polygon under the even-odd rule
    (draw_filled_polygon in main.cpp).

    For every row between the polygon's lowest and highest vertex (clamped
    to the buffer) the source collects the x coordinate where each edge
    crosses the row, sorts them, and fills between the first and second,
    the third and fourth, and so on. An edge crosses row y when one end
    lies on or above it (end.y <= y) and the other strictly below; this
    half-open test counts a vertex that two edges share only once when the
    outline passes through the row there, and never takes a horizontal
    edge. */
module Polygon {
  import opened Arith
  import opened Pixel
  import opened Raster
  import opened Sorting

  /** The end `p` lies on or above row y. */
  predicate Upper(p: Point, y: int) { p.y <= y }

  /** The half-open crossing test of the edge from p1 to p2 against row y. */
  predicate Crosses(p1: Point, p2: Point, y: int) {
    (p1.y <= y && p2.y > y) || (p2.y <= y && p1.y > y)
  }

  /** An edge crosses a row exactly when its two ends lie on different
      sides of it; in particular its ends differ in y, so the intercept
      below never divides by zero. */
  lemma CrossesSides(p1: Point, p2: Point, y: int)
    ensures Crosses(p1, p2, y) <==> Upper(p1, y) != Upper(p2, y)
    ensures Crosses(p1, p2, y) ==> p1.y != p2.y
  {}

  /** The x where the edge from p1 to p2 meets row y, with the source's
      32-bit integer arithmetic: the product is formed first and the
      quotient truncates toward zero. It always lies between the two ends'
      x coordinates. */
  function EdgeX(p1: Point, p2: Point, y: int): (x: int)
    requires Crosses(p1, p2, y)
    ensures Between(x, p1.x, p2.x)
  {
    ScaledBetween(y - p1.y, p2.y - p1.y, p2.x - p1.x);
    p1.x + TruncDiv((y - p1.y) * (p2.x - p1.x), p2.y - p1.y)
  }

  /** A value representable as a 32-bit signed int. */
  predicate Int32(v: int) { -0x8000_0000 <= v < 0x8000_0000 }

  /** Polygon coordinates of magnitude at most 2^14. */
  predicate Moderate(p: Point) { -0x4000 <= p.x <= 0x4000 && -0x4000 <= p.y <= 0x4000 }

  /** With coordinates of magnitude at most 2^14, every intermediate value
      of the intercept computation fits the source's 32-bit int, so the
      model's unbounded arithmetic agrees with it. */
  lemma EdgeXFits(p1: Point, p2: Point, y: int)
    requires Moderate(p1) && Moderate(p2) && Crosses(p1, p2, y)
    ensures Int32(y - p1.y) && Int32(p2.x - p1.x) && Int32(p2.y - p1.y)
    ensures Int32((y - p1.y) * (p2.x - p1.x))
    ensures Int32(EdgeX(p1, p2, y))
  {
    var t, dx := y - p1.y, p2.x - p1.x;
    assert Abs(t) <= 0x8000 && Abs(dx) <= 0x8000;
    MulMono(Abs(t), 0x8000, Abs(dx));
    MulMono(Abs(dx), 0x8000, 0x8000);
    assert Abs(t * dx) == Abs(t) * Abs(dx);
  }

  /** Edge i runs from vertex i to vertex (i + 1) mod n, the last edge
      closing the outline. */
  function EdgeEnd(pts: seq<Point>, i: int): Point
    requires 0 <= i < |pts|
  {
    pts[(i + 1) % |pts|]
  }

  /** The intercepts of edges 0 .. k - 1 with row y, in the order the
      source pushes them. */
  function Intercepts(pts: seq<Point>, y: int, k: nat): (xs: seq<int>)
    requires k <= |pts|
    decreases k
  {
    if k == 0 then []
    else
      var p1, p2 := pts[k - 1], EdgeEnd(pts, k - 1);
      Intercepts(pts, y, k - 1) + (if Crosses(p1, p2, y) then [EdgeX(p1, p2, y)] else [])
  }

  /** All the intercepts of row y. */
  function Crossings(pts: seq<Point>, y: int): seq<int> {
    Intercepts(pts, y, |pts|)
  }

  lemma InterceptsLength(pts: seq<Point>, y: int, k: nat)
    requires 0 < k <= |pts|
    ensures |Intercepts(pts, y, k)| ==
      |Intercepts(pts, y, k - 1)| + if Crosses(pts[k - 1], EdgeEnd(pts, k - 1), y) then 1 else 0
  {}

  /** Walking the outline from vertex 0 to vertex k, the number of crossings
      so far is odd exactly when the walk has changed sides of the row. */
  lemma {:induction false} CrossingParity(pts: seq<Point>, y: int, k: nat)
    requires k < |pts|
    ensures |Intercepts(pts, y, k)| % 2 == if Upper(pts[0], y) == Upper(pts[k], y) then 0 else 1
    decreases k
  {
    if k > 0 {
      CrossingParity(pts, y, k - 1);
      EdgeEndNext(pts, k - 1);
      CrossesSides(pts[k - 1], pts[k], y);
      InterceptsLength(pts, y, k);
      var a := |Intercepts(pts, y, k - 1)|;
      var b := |Intercepts(pts, y, k)|;
      assert b == a + 1 || b == a;
    }
  }

  /** Before the last vertex, an edge ends at the next vertex. */
  lemma EdgeEndNext(pts: seq<Point>, i: int)
    requires 0 <= i && i + 1 < |pts|
    ensures EdgeEnd(pts, i) == pts[i + 1]
  {
    assert (i + 1) % |pts| == i + 1;
  }

  /** The outline is closed, so every row has an even number of
      crossings: the sorted list splits into whole pairs. */
  lemma EvenCrossings(pts: seq<Point>, y: int)
    requires |pts| > 0
    ensures |Crossings(pts, y)| % 2 == 0
  {
    var n := |pts|;
    CrossingParity(pts, y, n - 1);
    assert EdgeEnd(pts, n - 1) == pts[0];
    CrossesSides(pts[n - 1], pts[0], y);
  }

  /** A row that every vertex lies on the same side of has no crossings. */
  lemma {:induction false} OneSideNoCrossings(pts: seq<Point>, y: int, k: nat)
    requires k <= |pts|
    requires forall i :: 0 <= i < |pts| ==> Upper(pts[i], y) == Upper(pts[0], y)
    ensures Intercepts(pts, y, k) == []
    decreases k
  {
    if k > 0 {
      OneSideNoCrossings(pts, y, k - 1);
      CrossesSides(pts[k - 1], EdgeEnd(pts, k - 1), y);
    }
  }

  /** The running minimum the source computes, starting from `init`: a
      lower bound of every vertex's y, attained by `init` or by a vertex. */
  function MinY(pts: seq<Point>, init: int): (m: int)
    ensures m <= init && forall i :: 0 <= i < |pts| ==> m <= pts[i].y
    ensures m == init || exists i :: 0 <= i < |pts| && m == pts[i].y
    decreases |pts|
  {
    if |pts| == 0 then init
    else
      var m := MinY(pts[1..], Min(init, pts[0].y));
      assert forall i :: 1 <= i < |pts| ==> pts[i] == pts[1..][i - 1];
      m
  }

  /** The running maximum the source computes, starting from `init`: an
      upper bound of every vertex's y, attained by `init` or by a vertex. */
  function MaxY(pts: seq<Point>, init: int): (m: int)
    ensures m >= init && forall i :: 0 <= i < |pts| ==> m >= pts[i].y
    ensures m == init || exists i :: 0 <= i < |pts| && m == pts[i].y
    decreases |pts|
  {
    if |pts| == 0 then init
    else
      var m := MaxY(pts[1..], Max(init, pts[0].y));
      assert forall i :: 1 <= i < |pts| ==> pts[i] == pts[1..][i - 1];
      m
  }

  /** The first and last rows scanned: the vertices' extent, clamped to
      the buffer. */
  function TopRow(pts: seq<Point>, h: int): int { Max(MinY(pts, h), 0) }
  function BottomRow(pts: seq<Point>, h: int): int { Min(MaxY(pts, 0), h - 1) }

  /** Rows of the buffer that the scan skips have no crossings, so the
      clamping of the row range loses nothing. */
  lemma SkippedRowEmpty(pts: seq<Point>, h: int, y: int)
    requires |pts| > 0 && 0 <= y < h
    requires y < TopRow(pts, h) || y > BottomRow(pts, h)
    ensures Crossings(pts, y) == []
  {
    OneSideNoCrossings(pts, y, |pts|);
  }

  /** The fill of one row from the sorted crossings xs: for each pair
      (xs[2k], xs[2k + 1]) the pixels between them, clamped to the columns
      [0, w). */
  function PairSpans(xs: seq<int>, y: int, w: int): (r: seq<Point>)
    ensures forall p :: p in r <==> p.y == y && 0 <= p.x < w && InPairs(xs, p.x)
    decreases |xs|
  {
    if |xs| < 2 then []
    else Span(y, Max(xs[0], 0), Min(xs[1], w - 1)) + PairSpans(xs[2..], y, w)
  }

  /** The pixels the source hands to draw_pixel on row y. */
  function ScanLine(pts: seq<Point>, y: int, w: int): (r: seq<Point>)
    ensures forall p :: p in r <==> p.y == y && 0 <= p.x < w && InPairs(Sort(Crossings(pts, y)), p.x)
  {
    PairSpans(Sort(Crossings(pts, y)), y, w)
  }

  /** Rows y0 .. y1 in order. */
  function ScanRows(pts: seq<Point>, w: int, y0: int, y1: int): (r: seq<Point>)
    ensures forall p :: p in r <==>
      y0 <= p.y <= y1 && 0 <= p.x < w && InPairs(Sort(Crossings(pts, p.y)), p.x)
    decreases y1 - y0
  {
    if y1 < y0 then []
    else ScanRows(pts, w, y0, y1 - 1) + ScanLine(pts, y1, w)
  }

  /** The pixels draw_filled_polygon hands to draw_pixel, in order;
      nothing for fewer than three vertices. */
  function FilledPolygonPoints(pts: seq<Point>, w: int, h: int): (r: seq<Point>)
    ensures forall q :: q in r ==> 0 <= q.x < w && 0 <= q.y < h && InPairs(Sort(Crossings(pts, q.y)), q.x)
  {
    if |pts| < 3 then [] else ScanRows(pts, w, TopRow(pts, h), BottomRow(pts, h))
  }

  /** Two pairs that share an end point, sorted crossings a, m, m, b, both
      name the pixel (m, y): a translucent colour is blended there twice. */
  lemma PairSpansOverdraw(xs: seq<int>, y: int, w: int)
    requires |xs| >= 4 && xs[0] <= xs[1] && xs[1] == xs[2] && xs[2] <= xs[3] && 0 <= xs[1] < w
    ensures !NoDup(PairSpans(xs, y, w))
  {
    var a := Span(y, Max(xs[0], 0), Min(xs[1], w - 1));
    var b := Span(y, Max(xs[2], 0), Min(xs[3], w - 1));
    assert xs[2..][2..] == xs[4..];
    var s := a + (b + PairSpans(xs[4..], y, w));
    assert PairSpans(xs, y, w) == s;
    assert s[|a| - 1] == Point(xs[1], y) && s[|a|] == Point(xs[1], y);
  }

  /** The even-odd rule, stated without the scan: a pixel is filled when it
      is itself one of its row's crossings, or when an odd number of the
      row's crossings lie strictly to its left. */
  predicate EvenOddInside(pts: seq<Point>, px: int, py: int) {
    |pts| >= 3 &&
    var xs := Crossings(pts, py);
    px in xs || CountBelow(xs, px) % 2 == 1
  }

  /** The scan fills exactly the pixels of the buffer that the even-odd
      rule puts inside the polygon, and nothing outside the buffer. */
  lemma FilledExactly(pts: seq<Point>, w: int, h: int, px: int, py: int)
    ensures Point(px, py) in FilledPolygonPoints(pts, w, h) ==> 0 <= px < w && 0 <= py < h
    ensures 0 <= px < w && 0 <= py < h ==>
      (Point(px, py) in FilledPolygonPoints(pts, w, h) <==> EvenOddInside(pts, px, py))
  {
    if |pts| >= 3 {
      ScannedPixel(pts, w, h, px, py);
      if 0 <= px < w && 0 <= py < h {
        if py < TopRow(pts, h) || py > BottomRow(pts, h) {
          SkippedRowEmpty(pts, h, py);
        } else {
          EvenCrossings(pts, py);
          RowFill(Crossings(pts, py), px);
        }
      }
    }
  }

  lemma ScannedPixel(pts: seq<Point>, w: int, h: int, px: int, py: int)
    requires |pts| >= 3
    ensures Point(px, py) in FilledPolygonPoints(pts, w, h) <==>
      TopRow(pts, h) <= py <= BottomRow(pts, h) && 0 <= px < w && InPairs(Sort(Crossings(pts, py)), px)
    ensures TopRow(pts, h) >= 0 && BottomRow(pts, h) < h
  {
    ScanRowsMember(pts, w, TopRow(pts, h), BottomRow(pts, h), Point(px, py));
  }

  lemma ScanRowsMember(pts: seq<Point>, w: int, y0: int, y1: int, p: Point)
    ensures p in ScanRows(pts, w, y0, y1) <==>
      y0 <= p.y <= y1 && 0 <= p.x < w && InPairs(Sort(Crossings(pts, p.y)), p.x)
  {}

  /** On one row: filling between the pairs of the sorted crossings is the
      even-odd rule applied to the crossings in any order. */
  lemma RowFill(xs: seq<int>, x: int)
    requires |xs| % 2 == 0
    ensures InPairs(Sort(xs), x) <==> x in xs || CountBelow(xs, x) % 2 == 1
  {
    var s := Sort(xs);
    assert x in s <==> x in xs by {
      assert x in s <==> x in multiset(s);
    }
    CountBelowSort(xs, x);
    if x in s {
      EntryInPairs(s, x);
    } else {
      EvenOdd(s, x);
    }
  }

  /** draw_filled_polygon: fewer than three vertices draw nothing; a pixel
      outside the even-odd interior keeps its colour; with an opaque colour
      every interior pixel ends up exactly that colour. */
  function DrawFilledPolygon(f: Frame, pts: seq<Point>, c: Color): (g: Frame)
    requires f.Valid()
    ensures g.Valid() && g.width == f.width && g.height == f.height
    ensures |pts| < 3 ==> g == f
    ensures forall px, py :: f.Contains(px, py) && !EvenOddInside(pts, px, py) ==>
      g.At(px, py) == f.At(px, py)
    ensures Opaque(c) ==> forall px, py :: f.Contains(px, py) && EvenOddInside(pts, px, py) ==>
      g.At(px, py) == c
  {
    var fill := FilledPolygonPoints(pts, f.width, f.height);
    forall px, py | f.Contains(px, py)
      ensures Point(px, py) in fill <==> EvenOddInside(pts, px, py)
    {
      FilledExactly(pts, f.width, f.height, px, py);
    }
    PaintAll(f, fill, c)
  }
}
