/** The midpoint filled circle (draw_filled_circle in main.cpp). */
module Circle {
  import opened Arith
  import opened Pixel
  import opened Raster

  /** One horizontal run of the disc: row `row`, columns cx - half through
      cx + half, with the row skipped when it is outside [0, h) and the
      columns clamped to [0, w - 1], as the source does before calling
      draw_pixel. */
  function ClampedSpan(w: int, h: int, cx: int, row: int, half: int): (s: seq<Point>)
    ensures forall p :: p in s <==>
      p.y == row && 0 <= row < h && 0 <= p.x < w && cx - half <= p.x <= cx + half
  {
    if 0 <= row < h then Span(row, Max(cx - half, 0), Min(cx + half, w - 1)) else []
  }

  /** Where one iteration paints from state (x, y): rows cy + y and
      cy - y out to x on either side of cx, rows cy + x and cy - x out to
      y, all inside the buffer. */
  predicate InRuns(w: int, h: int, cx: int, cy: int, x: int, y: int, p: Point) {
    && 0 <= p.x < w && 0 <= p.y < h
    && (|| ((p.y == cy + y || p.y == cy - y) && cx - x <= p.x <= cx + x)
        || ((p.y == cy + x || p.y == cy - x) && cx - y <= p.x <= cx + y))
  }

  /** The four mirrored runs one iteration of the loop paints, in order:
      rows cy + y and cy - y of half-width x, then rows cy + x and cy - x of
      half-width y. */
  function Runs(w: int, h: int, cx: int, cy: int, x: int, y: int): (r: seq<Point>)
    ensures forall p :: p in r <==> InRuns(w, h, cx, cy, x, y, p)
  {
    ClampedSpan(w, h, cx, cy + y, x) + ClampedSpan(w, h, cx, cy - y, x)
      + ClampedSpan(w, h, cx, cy + x, y) + ClampedSpan(w, h, cx, cy - x, y)
  }

  /** The loop state after one step: y moves down one row; the error term
      decides whether x moves in. */
  datatype Step = Step(x: int, y: int, err: int)

  function Next(x: int, y: int, err: int): (s: Step)
    ensures s.y == y + 1 && x - 1 <= s.x <= x
  {
    var y1 := y + 1;
    if err < 0 then Step(x, y1, err + 2 * y1 + 1)
    else Step(x - 1, y1, err + 2 * (y1 - (x - 1) + 1))
  }

  /** The pixels the loop `while (x >= y)` paints from state (x, y, err),
      in order. It terminates because x - y strictly falls each step.
      Every pixel it paints is inside the buffer and within x of the
      centre on both axes. */
  function Loop(w: int, h: int, cx: int, cy: int, x: int, y: int, err: int): (r: seq<Point>)
    requires y >= 0
    ensures forall p :: p in r ==>
      0 <= p.x < w && 0 <= p.y < h && cx - x <= p.x <= cx + x && cy - x <= p.y <= cy + x
    decreases x - y
  {
    if x < y then []
    else
      var s := Next(x, y, err);
      Runs(w, h, cx, cy, x, y) + Loop(w, h, cx, cy, s.x, s.y, s.err)
  }

  /** The painted set is mirror-symmetric about column cx and about row cy,
      wherever the mirror image lies in the buffer. */
  lemma {:induction false} LoopSymmetric(w: int, h: int, cx: int, cy: int, x: int, y: int, err: int, p: Point)
    requires y >= 0 && p in Loop(w, h, cx, cy, x, y, err)
    ensures 0 <= 2 * cx - p.x < w ==> Point(2 * cx - p.x, p.y) in Loop(w, h, cx, cy, x, y, err)
    ensures 0 <= 2 * cy - p.y < h ==> Point(p.x, 2 * cy - p.y) in Loop(w, h, cx, cy, x, y, err)
    decreases x - y
  {
    if x >= y {
      var s := Next(x, y, err);
      var here := Runs(w, h, cx, cy, x, y);
      var rest := Loop(w, h, cx, cy, s.x, s.y, s.err);
      assert Loop(w, h, cx, cy, x, y, err) == here + rest;
      if p in here {
        assert InRuns(w, h, cx, cy, x, y, p);
        assert 0 <= 2 * cx - p.x < w ==> InRuns(w, h, cx, cy, x, y, Point(2 * cx - p.x, p.y));
        assert 0 <= 2 * cy - p.y < h ==> InRuns(w, h, cx, cy, x, y, Point(p.x, 2 * cy - p.y));
      } else {
        LoopSymmetric(w, h, cx, cy, s.x, s.y, s.err, p);
      }
    }
  }

  /** After the first iteration no pixel of row cy is painted again: every
      later run lies y >= 1 or x >= y rows away from it. */
  lemma {:induction false} LoopAvoidsCentreRow(w: int, h: int, cx: int, cy: int, x: int, y: int, err: int)
    requires y >= 1
    ensures forall p :: p in Loop(w, h, cx, cy, x, y, err) ==> p.y != cy
    decreases x - y
  {
    if x >= y {
      var s := Next(x, y, err);
      LoopAvoidsCentreRow(w, h, cx, cy, s.x, s.y, s.err);
      assert Loop(w, h, cx, cy, x, y, err) == Runs(w, h, cx, cy, x, y) + Loop(w, h, cx, cy, s.x, s.y, s.err);
    }
  }

  /** The pixels draw_filled_circle paints, in order; nothing for r <= 0. */
  function DiscPoints(w: int, h: int, cx: int, cy: int, r: int): (ps: seq<Point>)
    ensures forall p :: p in ps ==> 0 <= p.x < w && 0 <= p.y < h && Abs(p.x - cx) <= r && Abs(p.y - cy) <= r
  {
    if r <= 0 then [] else Loop(w, h, cx, cy, r, 0, 1 - r)
  }

  /** (px, py) lies within the circle of radius r + 1/2 around (cx, cy):
      dx^2 + dy^2 <= r^2 + r - 1 < (r + 1/2)^2 for integers. */
  predicate InDisc(cx: int, cy: int, r: int, px: int, py: int) {
    (px - cx) * (px - cx) + (py - cy) * (py - cy) <= r * r + r - 1
  }

  /** What the error term tracks: with x stepped in n = r - x times so far,
      err = (y + 1)^2 + x^2 - x - r^2 + n. While the loop continues, the
      pixel (x, y) lies inside the circle of radius r + 1/2. */
  ghost predicate Tracking(r: int, x: int, y: int, err: int) {
    && 0 <= y && x <= r
    && err == (y + 1) * (y + 1) + x * x - 2 * x + r - r * r
    && (x < y || x * x + y * y <= r * r + r - 1)
  }

  /** One step of the loop keeps the error term tracking. */
  lemma TrackingStep(r: int, x: int, y: int, err: int)
    requires Tracking(r, x, y, err) && x >= y
    ensures var s := Next(x, y, err); Tracking(r, s.x, s.y, s.err)
  {
    var s := Next(x, y, err);
    assert (y + 2) * (y + 2) == (y + 1) * (y + 1) + 2 * (y + 1) + 1;
    if err < 0 {
      assert s.x * s.x + s.y * s.y == err + 2 * x - r + r * r;
    } else {
      assert (x - 1) * (x - 1) == x * x - 2 * x + 1;
      assert s.x * s.x + s.y * s.y == err - r + r * r + 1;
      assert err <= 2 * r + 2 * y - 2 * x;
    }
  }

  /** Every pixel the loop paints from a tracking state satisfies
      dx^2 + dy^2 <= r^2 + r - 1 < (r + 1/2)^2. */
  lemma {:induction false} LoopInsideDisc(w: int, h: int, cx: int, cy: int, r: int, x: int, y: int, err: int)
    requires Tracking(r, x, y, err)
    ensures forall p :: p in Loop(w, h, cx, cy, x, y, err) ==>
      InDisc(cx, cy, r, p.x, p.y)
    decreases x - y
  {
    if x >= y {
      var s := Next(x, y, err);
      TrackingStep(r, x, y, err);
      LoopInsideDisc(w, h, cx, cy, r, s.x, s.y, s.err);
      forall p | p in Runs(w, h, cx, cy, x, y)
        ensures InDisc(cx, cy, r, p.x, p.y)
      {
        RunInsideDisc(w, h, cx, cy, r, x, y, err, p);
      }
      assert Loop(w, h, cx, cy, x, y, err) == Runs(w, h, cx, cy, x, y) + Loop(w, h, cx, cy, s.x, s.y, s.err);
    }
  }

  lemma RunInsideDisc(w: int, h: int, cx: int, cy: int, r: int, x: int, y: int, err: int, p: Point)
    requires Tracking(r, x, y, err) && x >= y && InRuns(w, h, cx, cy, x, y, p)
    ensures InDisc(cx, cy, r, p.x, p.y)
  {
    var dx, dy := p.x - cx, p.y - cy;
    if p.y == cy + y || p.y == cy - y {
      SquareMono(dx, x);
      assert dy * dy == y * y;
    } else {
      SquareMono(dx, y);
      assert dy * dy == x * x;
    }
  }

  /** (px, py) lies within the circle of radius r around (cx, cy). */
  predicate WithinRadius(cx: int, cy: int, r: int, px: int, py: int) {
    (px - cx) * (px - cx) + (py - cy) * (py - cy) <= r * r
  }

  /** The loop keeps x large enough: the pixel one column further out,
      (x + 1, y), lies outside the circle of radius r. */
  ghost predicate Reaching(r: int, x: int, y: int) {
    (x + 1) * (x + 1) + y * y > r * r
  }

  lemma Below(d: int, m: int)
    requires d >= 0 && m >= 0 && d * d < (m + 1) * (m + 1)
    ensures d <= m
  {
    if d > m {
      SquareMono(m + 1, d);
    }
  }

  /** The only reaching state with 2x <= r: it is x = y = 1 at r = 2. */
  lemma NarrowState(r: int, x: int, y: int)
    requires r > 0 && 0 <= y <= x && 2 * x <= r && (x + 1) * (x + 1) + y * y > r * r
    ensures x == 1 && y == 1 && r == 2
  {
    SquareMono(y, x);
    SquareMono(2 * x, r);
    assert (2 * x) * (2 * x) == 4 * (x * x);
    assert (x + 1) * (x + 1) == x * x + 2 * x + 1;
    SmallSquare(x);
    if x == 0 {
      MulMono(1, r, r);
    } else {
      SquareMono(2, r);
      if r >= 3 {
        SquareMono(3, r);
      }
    }
  }

  lemma SmallSquare(x: int)
    requires x >= 0 && 2 * x + 1 > 2 * (x * x)
    ensures x <= 1
  {
    if x >= 2 {
      MulMono(2, x, x);
    }
  }

  /** When the error term moves x in, the pixel (x, y + 1) is already
      outside the circle of radius r, so row x is complete out to y. */
  lemma StepInReaches(r: int, x: int, y: int, err: int)
    requires r > 0 && Tracking(r, x, y, err) && Reaching(r, x, y) && x >= y && err >= 0
    ensures x * x + (y + 1) * (y + 1) > r * r
  {
    assert x * x + (y + 1) * (y + 1) == err + 2 * x - r + r * r;
    if 2 * x <= r {
      NarrowState(r, x, y);
    }
  }

  /** One step of the loop keeps x reaching. */
  lemma ReachingStep(r: int, x: int, y: int, err: int)
    requires r > 0 && Tracking(r, x, y, err) && Reaching(r, x, y) && x >= y
    ensures var s := Next(x, y, err); Reaching(r, s.x, s.y)
  {
    if err >= 0 {
      StepInReaches(r, x, y, err);
    } else {
      assert (y + 1) * (y + 1) >= y * y;
    }
  }

  /** Where one iteration leaves a pixel at offsets (dx, dy), dy between
      y and x, inside radius r: on row cy +- y when dy is y; on row cy +- x
      when dy is x and x moves in after this iteration; otherwise still
      between the next y and x. */
  lemma CoverStep(r: int, x: int, y: int, err: int, dx: int, dy: int)
    requires r > 0 && Tracking(r, x, y, err) && Reaching(r, x, y)
    requires 0 <= dx && y <= dy <= x && dx * dx + dy * dy <= r * r
    ensures var s := Next(x, y, err);
      || (dy == y && dx <= x)
      || (dy == x && s.x < x && dx <= y)
      || (s.y <= dy <= s.x)
  {
    var s := Next(x, y, err);
    if dy == y {
      Below(dx, x);
    } else if dy == x && s.x < x {
      StepInReaches(r, x, y, err);
      Below(dx, y);
    }
  }

  lemma AbsSquare(a: int)
    ensures Abs(a) * Abs(a) == a * a
  {}

  /** Every in-buffer pixel within radius r whose row offset lies between
      the current y and x is painted by the rest of the loop. */
  lemma {:induction false} LoopCovers(w: int, h: int, cx: int, cy: int, r: int, x: int, y: int, err: int, p: Point)
    requires r > 0 && Tracking(r, x, y, err) && Reaching(r, x, y)
    requires 0 <= p.x < w && 0 <= p.y < h && WithinRadius(cx, cy, r, p.x, p.y)
    requires y <= Abs(p.y - cy) <= x
    ensures p in Loop(w, h, cx, cy, x, y, err)
    decreases x - y
  {
    var dx, dy := Abs(p.x - cx), Abs(p.y - cy);
    var s := Next(x, y, err);
    assert Loop(w, h, cx, cy, x, y, err) == Runs(w, h, cx, cy, x, y) + Loop(w, h, cx, cy, s.x, s.y, s.err);
    AbsSquare(p.x - cx);
    AbsSquare(p.y - cy);
    CoverStep(r, x, y, err, dx, dy);
    if (dy == y && dx <= x) || (dy == x && s.x < x && dx <= y) {
      assert InRuns(w, h, cx, cy, x, y, p);
    } else {
      TrackingStep(r, x, y, err);
      ReachingStep(r, x, y, err);
      LoopCovers(w, h, cx, cy, r, s.x, s.y, s.err, p);
    }
  }

  /** draw_filled_circle paints every in-buffer pixel within radius r. */
  lemma DiscPointsCover(w: int, h: int, cx: int, cy: int, r: int, p: Point)
    ensures r > 0 && 0 <= p.x < w && 0 <= p.y < h && WithinRadius(cx, cy, r, p.x, p.y) ==>
      p in DiscPoints(w, h, cx, cy, r)
  {
    if r > 0 && 0 <= p.x < w && 0 <= p.y < h && WithinRadius(cx, cy, r, p.x, p.y) {
      LoopCoversAll(w, h, cx, cy, r, p);
    }
  }

  lemma LoopCoversAll(w: int, h: int, cx: int, cy: int, r: int, p: Point)
    requires r > 0 && 0 <= p.x < w && 0 <= p.y < h && WithinRadius(cx, cy, r, p.x, p.y)
    ensures p in Loop(w, h, cx, cy, r, 0, 1 - r)
  {
    RowWithinRadius(p.x - cx, p.y - cy, r);
    StartState(r);
    LoopCovers(w, h, cx, cy, r, r, 0, 1 - r, p);
  }

  /** The loop's first state tracks and reaches. */
  lemma StartState(r: int)
    requires r > 0
    ensures Tracking(r, r, 0, 1 - r) && Reaching(r, r, 0)
  {
    assert (r + 1) * (r + 1) == r * r + 2 * r + 1;
  }

  lemma RowWithinRadius(dx: int, dy: int, r: int)
    requires r > 0 && dx * dx + dy * dy <= r * r
    ensures Abs(dy) <= r
  {
    AbsSquare(dy);
    if Abs(dy) > r {
      SquareMono(r + 1, Abs(dy));
    }
  }

  /** draw_filled_circle. A radius <= 0 draws nothing. Only pixels within
      the square of side 2r + 1 around the centre and inside the circle of
      radius r + 1/2 may change, and every in-buffer pixel within radius r is painted (an
      opaque colour covers the whole disc of radius r); the painted set is
      symmetric about the centre's row and column. The centre, when inside the buffer, is
      painted, and twice: row cy is both row cy + 0 and row cy - 0 of the
      first iteration, so a translucent colour is blended onto it twice. */
  function DrawFilledCircle(f: Frame, cx: int, cy: int, r: int, c: Color): (g: Frame)
    requires f.Valid()
    ensures g.Valid() && g.width == f.width && g.height == f.height
    ensures r <= 0 ==> g == f
    ensures forall px, py :: f.Contains(px, py) && Point(px, py) !in DiscPoints(f.width, f.height, cx, cy, r) ==>
      g.At(px, py) == f.At(px, py)
    ensures forall p :: p in DiscPoints(f.width, f.height, cx, cy, r) ==>
      f.Contains(p.x, p.y) && cx - r <= p.x <= cx + r && cy - r <= p.y <= cy + r
      && InDisc(cx, cy, r, p.x, p.y)
    ensures Opaque(c) ==> forall p :: p in DiscPoints(f.width, f.height, cx, cy, r) ==> g.At(p.x, p.y) == c
    ensures Opaque(c) ==> forall px, py :: r > 0 && f.Contains(px, py) && WithinRadius(cx, cy, r, px, py) ==>
      g.At(px, py) == c
    ensures r > 0 && f.Contains(cx, cy) ==> g.At(cx, cy) == Blend(Blend(f.At(cx, cy), c), c)
  {
    DiscPointsBounded(f.width, f.height, cx, cy, r);
    forall px, py | f.Contains(px, py)
      ensures r > 0 && WithinRadius(cx, cy, r, px, py) ==> Point(px, py) in DiscPoints(f.width, f.height, cx, cy, r)
    {
      DiscPointsCover(f.width, f.height, cx, cy, r, Point(px, py));
    }
    CentrePainted(f, cx, cy, r, c);
    PaintAll(f, DiscPoints(f.width, f.height, cx, cy, r), c)
  }

  /** The centre pixel is blended twice. */
  lemma CentrePainted(f: Frame, cx: int, cy: int, r: int, c: Color)
    requires f.Valid()
    ensures r > 0 && f.Contains(cx, cy) ==>
      PaintAll(f, DiscPoints(f.width, f.height, cx, cy, r), c).At(cx, cy) == Blend(Blend(f.At(cx, cy), c), c)
  {
    if r > 0 && f.Contains(cx, cy) {
      CentreTwice(f.width, f.height, cx, cy, r);
      PaintAllCount(f, DiscPoints(f.width, f.height, cx, cy, r), c, cx, cy);
    }
  }

  /** Every pixel draw_filled_circle paints lies in the buffer, in the
      square of side 2r + 1 around the centre, and inside the circle of
      radius r + 1/2. */
  lemma DiscPointsBounded(w: int, h: int, cx: int, cy: int, r: int)
    ensures forall p :: p in DiscPoints(w, h, cx, cy, r) ==>
      0 <= p.x < w && 0 <= p.y < h && cx - r <= p.x <= cx + r && cy - r <= p.y <= cy + r
      && InDisc(cx, cy, r, p.x, p.y)
  {
    if r > 0 {
      StartState(r);
      LoopInsideDisc(w, h, cx, cy, r, r, 0, 1 - r);
    }
  }

  /** The centre occurs exactly twice among the painted pixels. */
  lemma CentreTwice(w: int, h: int, cx: int, cy: int, r: int)
    requires r > 0 && 0 <= cx < w && 0 <= cy < h
    ensures multiset(DiscPoints(w, h, cx, cy, r))[Point(cx, cy)] == 2
  {
    var q := Point(cx, cy);
    var s := Next(r, 0, 1 - r);
    var a := ClampedSpan(w, h, cx, cy, r);
    var b := ClampedSpan(w, h, cx, cy + r, 0);
    var d := ClampedSpan(w, h, cx, cy - r, 0);
    var rest := Loop(w, h, cx, cy, s.x, s.y, s.err);
    assert DiscPoints(w, h, cx, cy, r) == a + a + b + d + rest;
    assert multiset(a)[q] == 1 by {
      var lo := Max(cx - r, 0);
      assert a == Span(cy, lo, Min(cx + r, w - 1));
      assert a[cx - lo] == q;
      SpanNoDup(cy, lo, Min(cx + r, w - 1));
      NoDupCount(a, q);
    }
    LoopAvoidsCentreRow(w, h, cx, cy, s.x, s.y, s.err);
    assert q !in b && q !in d;
  }
}
