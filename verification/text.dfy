/** Bitmap text: one 8x8 glyph blitted with a scale factor (draw_char in
    main.cpp) and the layout loop that walks a UTF-8 string, looks each
    character up in the font and moves the cursor (draw_text).

    The glyph bitmaps themselves live in a table outside this model; the
    drawing functions take it as a parameter `font` from glyph index to
    bitmap. */
module Text {
  import opened Arith
  import opened Pixel
  import opened Raster
  import opened Utf8
  import opened Glyphs

  /** Eight rows of eight pixels; bit `col` of a row (least significant
      first) is the pixel in column `col`. */
  type Glyph = g: seq<Byte> | |g| == 8 witness [0, 0, 0, 0, 0, 0, 0, 0]

  function Pow2(n: nat): (p: nat)
    ensures p >= 1
  {
    if n == 0 then 1 else 2 * Pow2(n - 1)
  }

  /** `(b & (1 << col)) != 0` */
  predicate BitSet(b: Byte, col: int)
    requires 0 <= col < 8
  {
    (b / Pow2(col)) % 2 == 1
  }

  /** BitSet is the source's mask test. */
  lemma BitAgrees(b: bv8, col: nat)
    requires col < 8
    ensures (b & (1 << col)) != 0 <==> BitSet(b as int, col)
  {
    if col == 0 { Bit0(b); }
    else if col == 1 { assert (1 as bv8) << col == 2; Bit1(b); }
    else if col == 2 { assert (1 as bv8) << col == 4; Bit2(b); }
    else if col == 3 { assert (1 as bv8) << col == 8; Bit3(b); }
    else if col == 4 { assert (1 as bv8) << col == 16; Bit4(b); }
    else if col == 5 { assert (1 as bv8) << col == 32; Bit5(b); }
    else if col == 6 { assert (1 as bv8) << col == 64; Bit6(b); }
    else { assert (1 as bv8) << col == 128; Bit7(b); }
  }

  lemma Bit0(b: bv8) ensures (b & 1 != 0) <==> BitSet(b as int, 0) {}
  lemma Bit1(b: bv8) ensures (b & 2 != 0) <==> BitSet(b as int, 1) { assert Pow2(1) == 2; }
  lemma Bit2(b: bv8) ensures (b & 4 != 0) <==> BitSet(b as int, 2) { assert Pow2(2) == 4; }
  lemma Bit3(b: bv8) ensures (b & 8 != 0) <==> BitSet(b as int, 3) { assert Pow2(3) == 8; }
  lemma Bit4(b: bv8) ensures (b & 16 != 0) <==> BitSet(b as int, 4) { assert Pow2(4) == 16; }
  lemma Bit5(b: bv8) ensures (b & 32 != 0) <==> BitSet(b as int, 5) { assert Pow2(5) == 32; }
  lemma Bit6(b: bv8) ensures (b & 64 != 0) <==> BitSet(b as int, 6) { assert Pow2(6) == 64; }
  lemma Bit7(b: bv8) ensures (b & 128 != 0) <==> BitSet(b as int, 7) { assert Pow2(7) == 128; }

  /** Which of the eight scaled cells the offset d from the glyph's corner
      falls into. */
  function Cell(d: int, s: int): (k: int)
    requires s > 0 && 0 <= d < 8 * s
    ensures 0 <= k < 8
  {
    CellBounds(d, s);
    d / s
  }

  /** The offset lies in the cell's stretch of s pixels. */
  lemma CellBounds(d: int, s: int)
    requires s > 0 && 0 <= d < 8 * s
    ensures 0 <= d / s < 8 && (d / s) * s <= d < (d / s) * s + s
  {
    MulMono(8, d / s, s);
  }

  lemma CellOffset(k: int, e: int, s: int)
    requires s > 0 && 0 <= k < 8 && 0 <= e < s
    ensures 0 <= k * s + e < 8 * s && Cell(k * s + e, s) == k
  {
    DivModUnique(k, e, s);
    MulMono(k + 1, 8, s);
  }

  /** The pixel (px, py) lies in the 8*s x 8*s box of a glyph drawn at
      (x, y). */
  predicate GlyphBox(x: int, y: int, s: int, px: int, py: int) {
    s > 0 && x <= px < x + 8 * s && y <= py < y + 8 * s
  }

  /** The pixel (px, py) is painted by one of the first n of the glyph's 64
      cells (row-major), drawn at (x, y) with scale s. */
  predicate CoveredBefore(x: int, y: int, g: Glyph, s: int, n: int, px: int, py: int) {
    && GlyphBox(x, y, s, px, py)
    && var row, col := Cell(py - y, s), Cell(px - x, s);
      row * 8 + col < n && BitSet(g[row], col)
  }

  /** The pixel (px, py) is painted when g is drawn at (x, y) with scale s:
      it is in the glyph's box and the bit of the cell it falls into is
      set. */
  predicate Covers(x: int, y: int, g: Glyph, s: int, px: int, py: int) {
    CoveredBefore(x, y, g, s, 64, px, py)
  }

  /** The s x s block with top-left corner (x0, y0), first n rows: the loops
      over dy and dx. */
  function Block(x0: int, y0: int, s: int, n: int): (r: seq<Point>)
    ensures forall p :: p in r <==> x0 <= p.x < x0 + s && y0 <= p.y < y0 + n
    ensures NoDup(r)
    decreases n
  {
    if n <= 0 then []
    else
      var a := Block(x0, y0, s, n - 1);
      var b := Span(y0 + n - 1, x0, x0 + s - 1);
      SpanNoDup(y0 + n - 1, x0, x0 + s - 1);
      NoDupConcat(a, b);
      a + b
  }

  /** A pixel is in the block of cell (row, col) exactly when it is in the
      glyph's box and falls into that cell. */
  lemma BlockIsCell(x: int, y: int, s: int, row: int, col: int, p: Point)
    requires s > 0 && 0 <= row < 8 && 0 <= col < 8
    ensures (x + col * s <= p.x < x + col * s + s && y + row * s <= p.y < y + row * s + s) <==>
      (GlyphBox(x, y, s, p.x, p.y) && Cell(p.y - y, s) == row && Cell(p.x - x, s) == col)
  {
    if x + col * s <= p.x < x + col * s + s && y + row * s <= p.y < y + row * s + s {
      CellOffset(col, p.x - x - col * s, s);
      CellOffset(row, p.y - y - row * s, s);
    } else if GlyphBox(x, y, s, p.x, p.y) {
      CellBounds(p.x - x, s);
      CellBounds(p.y - y, s);
    }
  }

  /** The block of cell k (row k / 8, column k % 8) when its bit is set,
      nothing otherwise. */
  function CellBlock(x: int, y: int, g: Glyph, s: int, k: int): seq<Point>
    requires 0 <= k < 64
  {
    var row, col := k / 8, k % 8;
    if BitSet(g[row], col) then Block(x + col * s, y + row * s, s, s) else []
  }

  /** The points draw_char hands to draw_pixel for the first n cells, in
      the source's order: row, column, then dy and dx within the block. */
  function CharCells(x: int, y: int, g: Glyph, s: int, n: nat): (r: seq<Point>)
    requires n <= 64
    ensures forall p :: p in r <==> CoveredBefore(x, y, g, s, n, p.x, p.y)
    ensures NoDup(r)
  {
    if n == 0 then []
    else
      var a := CharCells(x, y, g, s, n - 1);
      CharCellsStep(x, y, g, s, n, a);
      a + CellBlock(x, y, g, s, n - 1)
  }

  lemma CharCellsStep(x: int, y: int, g: Glyph, s: int, n: int, a: seq<Point>)
    requires 0 < n <= 64 && NoDup(a)
    requires forall p :: p in a <==> CoveredBefore(x, y, g, s, n - 1, p.x, p.y)
    ensures forall p :: p in a + CellBlock(x, y, g, s, n - 1) <==> CoveredBefore(x, y, g, s, n, p.x, p.y)
    ensures NoDup(a + CellBlock(x, y, g, s, n - 1))
  {
    var b := CellBlock(x, y, g, s, n - 1);
    forall p: Point
      ensures p in b <==> CoveredBefore(x, y, g, s, n, p.x, p.y) && !CoveredBefore(x, y, g, s, n - 1, p.x, p.y)
    {
      CellMembers(x, y, g, s, n, p);
    }
    NoDupConcat(a, b);
  }

  /** The block cell n - 1 adds holds the pixels the first n cells cover
      and the first n - 1 do not. */
  lemma CellMembers(x: int, y: int, g: Glyph, s: int, n: int, p: Point)
    requires 0 < n <= 64
    ensures p in CellBlock(x, y, g, s, n - 1) <==>
      CoveredBefore(x, y, g, s, n, p.x, p.y) && !CoveredBefore(x, y, g, s, n - 1, p.x, p.y)
  {
    var row, col := (n - 1) / 8, (n - 1) % 8;
    if s > 0 {
      BlockIsCell(x, y, s, row, col, p);
      if GlyphBox(x, y, s, p.x, p.y) {
        InCellBlock(x, y, g, s, n, p);
        NewlyCovered(x, y, g, s, n, p);
        SameCell(Cell(p.y - y, s), Cell(p.x - x, s), n);
      }
    }
  }

  lemma InCellBlock(x: int, y: int, g: Glyph, s: int, n: int, p: Point)
    requires 0 < n <= 64 && GlyphBox(x, y, s, p.x, p.y)
    ensures var row, col := (n - 1) / 8, (n - 1) % 8;
      p in CellBlock(x, y, g, s, n - 1) <==>
        BitSet(g[row], col) && Cell(p.y - y, s) == row && Cell(p.x - x, s) == col
  {
    BlockIsCell(x, y, s, (n - 1) / 8, (n - 1) % 8, p);
  }

  lemma NewlyCovered(x: int, y: int, g: Glyph, s: int, n: int, p: Point)
    requires 0 < n <= 64 && GlyphBox(x, y, s, p.x, p.y)
    ensures var r, c := Cell(p.y - y, s), Cell(p.x - x, s);
      CoveredBefore(x, y, g, s, n, p.x, p.y) && !CoveredBefore(x, y, g, s, n - 1, p.x, p.y) <==>
        r * 8 + c == n - 1 && BitSet(g[r], c)
  {}

  /** Cell (r, c) is cell number n - 1 exactly when r and c are its row and
      column. */
  lemma SameCell(r: int, c: int, n: int)
    requires 0 <= r < 8 && 0 <= c < 8 && 0 < n <= 64
    ensures r * 8 + c == n - 1 <==> r == (n - 1) / 8 && c == (n - 1) % 8
  {
    if r * 8 + c == n - 1 {
      DivModUnique(r, c, 8);
    }
  }

  /** draw_char: every pixel of the glyph's box whose cell bit is set is
      blended with the colour once; every other pixel, in particular every
      pixel outside [x, x + 8*scale) x [y, y + 8*scale), is unchanged. A
      scale below 1 draws nothing. */
  function DrawChar(f: Frame, x: int, y: int, g: Glyph, c: Color, scale: int): (h: Frame)
    requires f.Valid()
    ensures h.Valid() && h.width == f.width && h.height == f.height
    ensures forall px, py :: f.Contains(px, py) ==>
      h.At(px, py) == if Covers(x, y, g, scale, px, py) then Blend(f.At(px, py), c) else f.At(px, py)
    ensures forall px, py :: f.Contains(px, py) && !GlyphBox(x, y, scale, px, py) ==> h.At(px, py) == f.At(px, py)
    ensures scale <= 0 ==> h == f
  {
    var pts := CharCells(x, y, g, scale, 64);
    var h := PaintAll(f, pts, c);
    forall px, py | f.Contains(px, py) && Covers(x, y, g, scale, px, py)
      ensures h.At(px, py) == Blend(f.At(px, py), c)
    {
      PaintAllOnce(f, pts, c, px, py);
    }
    if scale <= 0 then
      FrameExtensionality(h, f);
      h
    else h
  }

  /** The block view of draw_char: a set bit paints its whole scale x scale
      block, a clear bit leaves it alone. */
  lemma DrawCharBlock(f: Frame, x: int, y: int, g: Glyph, c: Color, scale: int,
                      row: int, col: int, dx: int, dy: int)
    requires f.Valid() && 0 <= row < 8 && 0 <= col < 8 && 0 <= dx < scale && 0 <= dy < scale
    requires f.Contains(x + col * scale + dx, y + row * scale + dy)
    ensures var px, py := x + col * scale + dx, y + row * scale + dy;
      DrawChar(f, x, y, g, c, scale).At(px, py) ==
        if BitSet(g[row], col) then Blend(f.At(px, py), c) else f.At(px, py)
  {
    BlockIsCell(x, y, scale, row, col, Point(x + col * scale + dx, y + row * scale + dy));
  }

  /** The parameters of a draw_text call other than the text and colour. */
  datatype Style = Style(x: int, y: int, scale: int, spacing: int, lineHeight: int)

  /** The default arguments of draw_text (and draw_char's default scale):
      scale 1, two pixels between glyphs, ten between lines. */
  function DefaultStyle(x: int, y: int): Style { Style(x, y, 1, 2, 10) }

  /** The layout state: the cursor and the byte pointer. */
  datatype Cursor = Cursor(cx: int, cy: int, pos: int)

  /** One draw_char call: where the glyph goes, which glyph, and the byte
      position of the character it shows. */
  datatype Placement = Placement(x: int, y: int, index: int, at: int)

  const Newline: Byte := 0x0A

  /** The loop of draw_text stops at the first NUL byte the pointer lands
      on; the end of the sequence counts as one. A 0 inside a multi-byte
      character's bytes is stepped over with them. */
  predicate AtEnd(text: seq<Byte>, pos: int) { ByteAt(text, pos) == 0 }

  /** The glyph draw_text looks up for the character at byte pos. */
  function IndexAt(text: seq<Byte>, pos: int): int {
    FontIndex(DecodeAt(text, pos))
  }

  /** One iteration of draw_text's loop: a newline moves the cursor to the
      start of the next line; any other character moves the pointer past
      its bytes and, when it has a glyph, the cursor one cell right. */
  function Step(text: seq<Byte>, st: Style, cur: Cursor): (next: Cursor)
    requires 0 <= cur.pos < |text|
    ensures cur.pos < next.pos <= cur.pos + 4
  {
    if text[cur.pos] == Newline then
      Cursor(st.x, cur.cy + 8 * st.scale + st.lineHeight, cur.pos + 1)
    else
      var dx := if IndexAt(text, cur.pos) >= 0 then 8 * st.scale + st.spacing else 0;
      Cursor(cur.cx + dx, cur.cy, cur.pos + Advance(text[cur.pos]))
  }

  /** The draw_char call an iteration makes, if any. */
  function Placed(text: seq<Byte>, cur: Cursor): seq<Placement>
    requires 0 <= cur.pos < |text|
  {
    if text[cur.pos] != Newline && IndexAt(text, cur.pos) >= 0
    then [Placement(cur.cx, cur.cy, IndexAt(text, cur.pos), cur.pos)]
    else []
  }

  /** The draw_char calls of draw_text's loop from state cur on. */
  function Run(text: seq<Byte>, st: Style, cur: Cursor): seq<Placement>
    requires cur.pos >= 0
    decreases |text| - cur.pos
  {
    if AtEnd(text, cur.pos) then []
    else Placed(text, cur) + Run(text, st, Step(text, st, cur))
  }

  /** A placement shows a character that starts inside the text, is not a
      newline, and has a glyph. */
  predicate ShowsGlyph(text: seq<Byte>, pl: Placement) {
    && 0 <= pl.at < |text| && text[pl.at] != 0 && text[pl.at] != Newline
    && pl.index == IndexAt(text, pl.at) && 0 <= pl.index <= MaxGlyphIndex
  }

  /** The placements are in strictly increasing byte order. */
  predicate Ascending(ps: seq<Placement>) {
    forall j, k :: 0 <= j < k < |ps| ==> ps[j].at < ps[k].at
  }

  /** Every draw_char call of the loop shows a glyph of a character at or
      after the starting pointer, and the calls come in the order of the
      text, at most one per byte position. */
  lemma {:induction false} RunPlacements(text: seq<Byte>, st: Style, cur: Cursor)
    requires cur.pos >= 0
    ensures forall pl :: pl in Run(text, st, cur) ==> cur.pos <= pl.at && ShowsGlyph(text, pl)
    ensures Ascending(Run(text, st, cur))
    decreases |text| - cur.pos
  {
    if !AtEnd(text, cur.pos) {
      var next := Step(text, st, cur);
      RunPlacements(text, st, next);
      PlacedShows(text, cur);
      var head := Placed(text, cur);
      var rest := Run(text, st, next);
      var ps := Run(text, st, cur);
      assert ps == head + rest;
      forall j, k | 0 <= j < k < |ps|
        ensures ps[j].at < ps[k].at
      {
        if j >= |head| {
          assert ps[j] == rest[j - |head|] && ps[k] == rest[k - |head|];
        } else {
          assert ps[k] in rest;
        }
      }
    }
  }

  lemma PlacedShows(text: seq<Byte>, cur: Cursor)
    requires 0 <= cur.pos < |text| && text[cur.pos] != 0
    ensures forall pl :: pl in Placed(text, cur) ==> pl.at == cur.pos && ShowsGlyph(text, pl)
  {
    NoGlyph(DecodeAt(text, cur.pos));
  }

  /** The start state of draw_text. */
  function Start(st: Style): Cursor {
    Cursor(st.x, st.y, 0)
  }

  /** Width of one glyph cell plus the gap after it. */
  function Pitch(st: Style): int { 8 * st.scale + st.spacing }

  /** A newline places nothing and resumes at x on the line below, 8*scale
      + lineHeight further down. */
  lemma NewlineStartsLine(text: seq<Byte>, st: Style, cur: Cursor)
    requires 0 <= cur.pos < |text| && text[cur.pos] == Newline
    ensures Run(text, st, cur) == Run(text, st, Cursor(st.x, cur.cy + 8 * st.scale + st.lineHeight, cur.pos + 1))
  {
    assert !AtEnd(text, cur.pos);
    assert Placed(text, cur) == [];
    assert Step(text, st, cur) == Cursor(st.x, cur.cy + 8 * st.scale + st.lineHeight, cur.pos + 1);
  }

  /** A character without a glyph places nothing and leaves the cursor
      where it is; only the pointer moves, past the character's bytes. */
  lemma UnmappedSkipped(text: seq<Byte>, st: Style, cur: Cursor)
    requires 0 <= cur.pos < |text| && text[cur.pos] != 0 && IndexAt(text, cur.pos) == -1
    ensures Run(text, st, cur) == Run(text, st, Cursor(cur.cx, cur.cy, cur.pos + Advance(text[cur.pos])))
  {
    Latin1Identity(Newline);
    assert Placed(text, cur) == [];
  }

  /** Any character with a glyph, one byte or several, places that glyph at
      the cursor; the cursor then moves one pitch right and the pointer past
      the character's bytes. */
  lemma MappedStep(text: seq<Byte>, st: Style, cur: Cursor)
    requires 0 <= cur.pos < |text| && text[cur.pos] != 0 && text[cur.pos] != Newline
    requires IndexAt(text, cur.pos) >= 0
    ensures Run(text, st, cur) == [Placement(cur.cx, cur.cy, IndexAt(text, cur.pos), cur.pos)] +
      Run(text, st, Cursor(cur.cx + Pitch(st), cur.cy, cur.pos + Advance(text[cur.pos])))
  {
    assert !AtEnd(text, cur.pos);
  }

  /** The pointer advance trusts the lead byte: a multi-byte lead as the
      last byte of the text moves the pointer past the end, that is past
      the terminating NUL, where the source keeps reading. In the model
      everything from the end on reads as 0, so the loop stops there. */
  lemma StepPastEnd(text: seq<Byte>, st: Style, cur: Cursor)
    requires 0 <= cur.pos == |text| - 1 && (Lead2(text[cur.pos]) || Lead3(text[cur.pos]) || Lead4(text[cur.pos]))
    ensures Step(text, st, cur).pos > |text|
    ensures Run(text, st, Step(text, st, cur)) == []
  {}

  /** Printable ASCII other than the newline: one byte, its own glyph. */
  predicate PlainAscii(b: Byte) { 0 < b < 0x80 && b != Newline }

  /** Glyph k showing byte pos + k of the text, at k pitches right of
      (cx, cy), for every byte from pos to the end. */
  function Evenly(text: seq<Byte>, pos: int, cx: int, cy: int, pitch: int): (ps: seq<Placement>)
    requires 0 <= pos <= |text|
    ensures |ps| == |text| - pos
  {
    seq(|text| - pos, k requires 0 <= k < |text| - pos => Placement(cx + k * pitch, cy, text[pos + k], pos + k))
  }

  lemma EvenlyCons(text: seq<Byte>, pos: int, cx: int, cy: int, pitch: int)
    requires 0 <= pos < |text|
    ensures Evenly(text, pos, cx, cy, pitch) ==
      [Placement(cx, cy, text[pos], pos)] + Evenly(text, pos + 1, cx + pitch, cy, pitch)
  {
    var a := Evenly(text, pos, cx, cy, pitch);
    var b := Evenly(text, pos + 1, cx + pitch, cy, pitch);
    forall k | 0 < k < |a|
      ensures a[k] == b[k - 1]
    {
      assert cx + pitch + (k - 1) * pitch == cx + k * pitch;
    }
  }

  /** A run of plain ASCII is laid out on one line: glyph k shows byte k
      and sits k pitches right of the cursor. */
  lemma {:induction false} AsciiLine(text: seq<Byte>, st: Style, cur: Cursor)
    requires 0 <= cur.pos <= |text|
    requires forall k :: cur.pos <= k < |text| ==> PlainAscii(text[k])
    ensures Run(text, st, cur) == Evenly(text, cur.pos, cur.cx, cur.cy, Pitch(st))
    decreases |text| - cur.pos
  {
    if cur.pos < |text| {
      AsciiStep(text, st, cur);
      AsciiLine(text, st, Cursor(cur.cx + Pitch(st), cur.cy, cur.pos + 1));
      EvenlyCons(text, cur.pos, cur.cx, cur.cy, Pitch(st));
    }
  }

  /** One byte of plain ASCII places its own glyph at the cursor and moves
      one pitch right. */
  lemma AsciiStep(text: seq<Byte>, st: Style, cur: Cursor)
    requires 0 <= cur.pos < |text| && PlainAscii(text[cur.pos])
    ensures Run(text, st, cur) ==
      [Placement(cur.cx, cur.cy, text[cur.pos], cur.pos)] + Run(text, st, Cursor(cur.cx + Pitch(st), cur.cy, cur.pos + 1))
  {
    Latin1Identity(DecodeAt(text, cur.pos));
    assert IndexAt(text, cur.pos) == text[cur.pos];
  }

  /** The pixel (px, py) is in none of the placed glyphs' boxes. */
  predicate OutsideAll(ps: seq<Placement>, scale: int, px: int, py: int) {
    forall k :: 0 <= k < |ps| ==> !GlyphBox(ps[k].x, ps[k].y, scale, px, py)
  }

  /** The pixel (px, py) is covered by a set bit of at least one of the
      placed glyphs. */
  predicate CoveredByAny(ps: seq<Placement>, font: int -> Glyph, scale: int, px: int, py: int) {
    exists k :: 0 <= k < |ps| && Covers(ps[k].x, ps[k].y, font(ps[k].index), scale, px, py)
  }

  /** A pixel is covered by some glyph of a non-empty list exactly when it
      is covered by the first or by one of the rest. */
  lemma CoveredByAnyCons(ps: seq<Placement>, font: int -> Glyph, scale: int)
    requires |ps| > 0
    ensures forall px, py :: CoveredByAny(ps, font, scale, px, py) <==>
      Covers(ps[0].x, ps[0].y, font(ps[0].index), scale, px, py) || CoveredByAny(ps[1..], font, scale, px, py)
  {
    forall px, py | CoveredByAny(ps[1..], font, scale, px, py)
      ensures CoveredByAny(ps, font, scale, px, py)
    {
      var k :| 0 <= k < |ps[1..]| && Covers(ps[1..][k].x, ps[1..][k].y, font(ps[1..][k].index), scale, px, py);
      assert ps[1..][k] == ps[k + 1];
    }
    forall px, py | CoveredByAny(ps, font, scale, px, py) && !Covers(ps[0].x, ps[0].y, font(ps[0].index), scale, px, py)
      ensures CoveredByAny(ps[1..], font, scale, px, py)
    {
      var k :| 0 <= k < |ps| && Covers(ps[k].x, ps[k].y, font(ps[k].index), scale, px, py);
      assert ps[1..][k - 1] == ps[k];
    }
  }

  /** draw_char for each placement in turn, glyph bitmaps from `font`. A
      pixel no glyph covers keeps its colour; with an opaque colour every
      covered pixel ends up that colour, however the glyphs overlap. */
  function DrawGlyphs(f: Frame, ps: seq<Placement>, font: int -> Glyph, c: Color, scale: int): (h: Frame)
    requires f.Valid()
    ensures h.Valid() && h.width == f.width && h.height == f.height
    ensures forall px, py :: f.Contains(px, py) && OutsideAll(ps, scale, px, py) ==> h.At(px, py) == f.At(px, py)
    ensures forall px, py :: f.Contains(px, py) && !CoveredByAny(ps, font, scale, px, py) ==> h.At(px, py) == f.At(px, py)
    ensures Opaque(c) ==> forall px, py :: f.Contains(px, py) && CoveredByAny(ps, font, scale, px, py) ==> h.At(px, py) == c
    decreases |ps|
  {
    if |ps| == 0 then f
    else
      var f1 := DrawChar(f, ps[0].x, ps[0].y, font(ps[0].index), c, scale);
      var h := DrawGlyphs(f1, ps[1..], font, c, scale);
      assert forall k :: 0 <= k < |ps| - 1 ==> ps[1..][k] == ps[k + 1];
      CoveredByAnyCons(ps, font, scale);
      h
  }

  /** draw_text: the glyphs of the text's characters drawn at the cursor
      positions of the layout loop. Nothing outside their boxes, and
      nothing their set bits miss, changes; an opaque colour covers every
      set bit of every placed glyph. */
  function DrawText(f: Frame, text: seq<Byte>, st: Style, font: int -> Glyph, c: Color): (h: Frame)
    requires f.Valid()
    ensures h.Valid() && h.width == f.width && h.height == f.height
    ensures forall px, py :: f.Contains(px, py) && OutsideAll(Run(text, st, Start(st)), st.scale, px, py) ==>
      h.At(px, py) == f.At(px, py)
    ensures forall px, py :: f.Contains(px, py) && !CoveredByAny(Run(text, st, Start(st)), font, st.scale, px, py) ==>
      h.At(px, py) == f.At(px, py)
    ensures Opaque(c) ==> forall px, py ::
      f.Contains(px, py) && CoveredByAny(Run(text, st, Start(st)), font, st.scale, px, py) ==> h.At(px, py) == c
  {
    DrawGlyphs(f, Run(text, st, Start(st)), font, c, st.scale)
  }
}
