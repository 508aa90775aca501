# Open-Render rasteriser core, modelled in Dafny

Open-Render is a small software rasteriser. A single file, `main.cpp`,
holds a 1920 x 1080 frame buffer of packed 32-bit ARGB colours. Drawing
primitives composite a colour onto it through one routine,
`draw_pixel`/`blend_colors`:

- filled and stroked rectangles;
- a midpoint filled circle;
- an even-odd scanline polygon fill;
- bitmap text: a UTF-8 decoder, a code point to glyph index table and an
  8x8 glyph blitter.

`save_ppm` then writes the buffer as a binary PPM image.

This project models that core and proves what each routine does:

| file | module | models |
|---|---|---|
| `arith.dfy` | `Arith` | Integer helpers, and C's division that truncates toward zero (`TruncDiv`). |
| `pixel.dfy` | `Pixel` | Packed colours, their channels, and `blend_colors`. |
| `raster.dfy` | `Raster` | The frame buffer and `draw_pixel`. `PaintAll` folds `draw_pixel` over a sequence of points. |
| `rect.dfy` | `Rect` | `draw_filled_rect` and `draw_rect`. |
| `circle.dfy` | `Circle` | `draw_filled_circle`. |
| `sorting.dfy` | `Sorting` | The `std::sort` of the intersections. |
| `polygon.dfy` | `Polygon` | `draw_filled_polygon`. |
| `utf8.dfy` | `Utf8` | `utf8_to_codepoint` and the pointer advance of `draw_text`. |
| `glyphs.dfy` | `Glyphs` | `fontRanges` and `unicode_to_font_index`. |
| `text.dfy` | `Text` | `draw_char` and `draw_text`. |
| `ppm.dfy` | `Ppm` | The bytes `save_ppm` writes, and a reader for them. |

Every primitive is modelled in two parts:

1. The sequence of points it hands to `draw_pixel`, in the loops' order. The
   order and any repeats matter, because a translucent colour blended twice
   onto one pixel is not the same as blending it once.
2. The generic fold `Raster.PaintAll`.

Each primitive is then related to a reference definition that does not
mention the loops:

| primitive | reference definition |
|---|---|
| filled rectangle | `Rect.InBox` |
| stroked rectangle | `Rect.OnBorder` |
| filled circle | `Circle.WithinRadius` (radius r) inside, `Circle.InDisc` (radius r + 1/2) outside |
| filled polygon | `Polygon.EvenOddInside`, the even-odd rule |
| glyph | `Text.Covers` |
| UTF-8 decoder | `Utf8.Encode`, the encoding of section 3 of RFC 3629 |
| PPM writer | `Ppm.ReadPpm`, a reader for the file |

Two details of the code are easy to miss:

- A character without a glyph is skipped without moving the cursor: lines
  260-263 advance `cursor_x` only when the glyph index is not negative
  (`Text.UnmappedSkipped`).
- The code point ranges of the glyph table are disjoint. The glyph index
  blocks they map to are not: box drawing (U+2500-U+259F, 160 code points
  from index 320) runs into the Hiragana block's indices 384.. and the
  private-use block's 448.. (`Glyphs.SharedGlyphs`). Whether distinct
  characters then show the same bitmap depends on the font table, which is
  not part of this model.

## Model

| member | source | states |
|---|---|---|
| Pixel.Pack | main.cpp:59 | The four bytes packed by `(a << 24) \| (r << 16) \| (g << 8) \| b` are recovered unchanged by the channel extractions. |
| Pixel.PackAgrees | main.cpp:59 | The source's 32-bit shifts and ors of four bytes give the same number as `Pack`. |
| Pixel.ChannelsAgree | main.cpp:47-53 | The source's 32-bit extractions `(c >> 24) & 0xFF`, `(c >> 16) & 0xFF`, `(c >> 8) & 0xFF` and `c & 0xFF` are `Alpha`, `Red`, `Green` and `Blue`. |
| Pixel.PackUnpack | main.cpp:47-59 | A colour is determined by its four channels: unpacking and repacking gives the same colour. |
| Pixel.Mix | main.cpp:54-57 | One blended channel lies between the source and destination channel values. It is the source value at alpha 255 and the destination value at alpha 0. |
| Pixel.Blend | main.cpp:46-60 | The result is always opaque. An opaque source replaces the destination; a fully transparent source keeps the destination's RGB. Each channel lies between source and destination. |
| Pixel.BlendOpaqueIdempotent | main.cpp:46-60 | Blending an opaque colour a second time changes nothing, so overdraw with an opaque colour is invisible. |
| Raster.NewFrame | main.cpp:15 | A fresh buffer has the requested size and every pixel is opaque black 0xFF000000. |
| Raster.IndexInjective | main.cpp:66 | Row-major indexing `y * WIDTH + x` maps distinct in-row pixels to distinct buffer entries. |
| Raster.DrawPixel | main.cpp:62-67 | A write outside the buffer is dropped. Otherwise the pixel at (x, y) becomes the blend of the colour onto its old value, and no other pixel changes. |
| Raster.PaintAll | main.cpp:62-67 | After a sequence of `draw_pixel` calls, a pixel no call names keeps its colour. With an opaque colour, every named pixel inside the buffer ends up exactly that colour. |
| Raster.PaintAllOnce | main.cpp:62-67 | When no point repeats, every named in-buffer pixel is blended exactly once, whatever the alpha. |
| Raster.PaintAllCount | main.cpp:62-67 | In general a pixel is blended once for every time the call sequence names it. |
| Raster.PaintAllConcat | main.cpp:62-67 | Painting a sequence of points in two parts is painting the first part and then the second. |
| Raster.PaintAllInBoundsOnly | main.cpp:63 | Dropping the points outside the buffer beforehand does not change the result, so clamping before `draw_pixel` is harmless. |
| Rect.FilledRows | main.cpp:70-74 | The two loops name exactly the pixels of the half-open box [x, x + w) x [y, y + h), each once. |
| Rect.DrawFilledRect | main.cpp:69-75 | Every in-buffer pixel of the box is blended exactly once, pixels outside it are unchanged, and w <= 0 or h <= 0 draws nothing. |
| Rect.SideColumns | main.cpp:84-87 | A middle row names, in order, the pairs (x + j, row) and (x + w - j - 1, row). Together they are exactly the lW leftmost and lW rightmost columns. |
| Rect.StrokeRows | main.cpp:78-89 | The first k rows visited (k <= h) name exactly the pixels of `OnBorder` in those rows: the full first and last rows, and lW columns at each side in between. |
| Rect.StrokeRowNoDup | main.cpp:79-88 | With 2 * lW <= w, one row of the stroke names no pixel twice. |
| Rect.StrokePoints | main.cpp:78-89 | The points `draw_rect` hands to `draw_pixel`, in loop order. They are exactly the `OnBorder` pixels; `StrokeRowsNoDup` and `StrokeOverdraw` say when one repeats. |
| Rect.StrokeLeavesInterior | main.cpp:78-89 | No pixel strictly inside the frame of thickness lW is ever named. |
| Rect.StrokeRowsNoDup | main.cpp:78-89 | With 2 * lW <= w, no pixel is named twice. |
| Rect.StrokeOverdraw | main.cpp:84-87 | With 2 * lW > w, w >= 1 and h >= 3, the two side strokes overlap and some pixel is named twice. |
| Rect.DrawRect | main.cpp:77-90 | Non-border pixels are unchanged and an opaque colour covers the border exactly. With 2 * lW <= w, every border pixel is blended exactly once. |
| Circle.ClampedSpan | main.cpp:136-142 | One run paints exactly the pixels of its row within `half` of cx. The row is skipped when it is outside the buffer, and the columns are clamped. |
| Circle.Runs | main.cpp:136-163 | One iteration paints exactly the four mirrored runs: rows cy +- y out to x, and rows cy +- x out to y. |
| Circle.Next | main.cpp:164-170 | Each step increases y by one and moves x in by at most one. |
| Circle.Loop | main.cpp:135-171 | The loop terminates, and every pixel it paints is in the buffer and within x of the centre on both axes. |
| Circle.LoopSymmetric | main.cpp:136-163 | The painted set is symmetric about the centre's row and column, wherever the mirror image lies in the buffer. |
| Circle.LoopAvoidsCentreRow | main.cpp:135-171 | After the first iteration no pixel of the centre's row is painted again, so the centre is not either. |
| Circle.TrackingStep | main.cpp:164-170 | The error term keeps tracking (y + 1)^2 + x^2 - x - r^2 plus the number of inward steps, and the current point stays inside the circle of radius r + 1/2. |
| Circle.LoopInsideDisc | main.cpp:135-171 | From a tracking state every painted pixel satisfies dx^2 + dy^2 <= r^2 + r - 1. |
| Circle.DiscPoints | main.cpp:130-172 | The points `draw_filled_circle` hands to `draw_pixel`: nothing for r <= 0, otherwise the loop from x = r, y = 0, err = 1 - r. Every one is in the buffer and within r of the centre on both axes. `DiscPointsBounded` and `DiscPointsCover` bound the set from outside and inside. |
| Circle.DiscPointsBounded | main.cpp:130-172 | Every painted pixel lies in the buffer, in the square of side 2r + 1 around the centre, and inside the circle of radius r + 1/2. |
| Circle.CentreTwice | main.cpp:136-149 | The centre pixel is named exactly twice: row cy is both row cy + 0 and row cy - 0 of the first iteration. |
| Circle.CentrePainted | main.cpp:130-172 | The centre ends up blended twice with the colour. |
| Circle.ReachingStep | main.cpp:164-170 | The loop's outer run never falls short of the circle: (x + 1)^2 + y^2 > r^2 holds at the start and after every step. |
| Circle.StepInReaches | main.cpp:167-170 | When the error term is not negative, the point (x, y + 1) lies outside radius r, which is why x moves in. |
| Circle.LoopCovers | main.cpp:135-171 | From a tracking state, every in-buffer pixel within radius r whose row offset lies between y and x is painted by the remaining iterations. |
| Circle.DiscPointsCover | main.cpp:130-172 | Every in-buffer pixel with dx^2 + dy^2 <= r^2 is painted, so the painted set lies between the disc of radius r and the circle of radius r + 1/2. |
| Circle.DrawFilledCircle | main.cpp:130-172 | A radius <= 0 draws nothing. Only painted pixels change, and they lie within the bounds above. An opaque colour covers every in-buffer pixel within radius r, and the centre is blended twice. |
| Sorting.Insert | main.cpp:202 | Inserting into an ascending sequence keeps it ascending and adds exactly the one element. |
| Sorting.Sort | main.cpp:202 | The result is an ascending permutation of the input. |
| Sorting.SortedUnique | main.cpp:202 | Two ascending sequences with the same elements are equal, so any correct sort, `std::sort` included, gives `Sort`'s result. |
| Sorting.CountBelowSort | main.cpp:202 | Sorting does not change how many entries lie below a value. |
| Sorting.EvenOdd | main.cpp:203-209 | For an ascending list of even length and a value not in it, the value lies in one of the filled pairs iff an odd number of entries are smaller than it. |
| Sorting.EntryInPairs | main.cpp:203-209 | Every intersection of an even-length ascending list is inside a filled pair, so span end points are filled. |
| Polygon.CrossesSides | main.cpp:197 | The half-open crossing test holds iff the edge's ends lie on different sides of the row. Then the ends differ in y, so the division never divides by zero. |
| Polygon.EdgeX | main.cpp:198 | The intercept, computed with a product first and a quotient truncating toward zero, lies between the edge's two x coordinates. |
| Polygon.EdgeXFits | main.cpp:198 | With coordinates of magnitude at most 2^14, every intermediate value fits a 32-bit int, so the unbounded model agrees with the source. |
| Polygon.Intercepts | main.cpp:194-201 | The intercepts of edges 0..k-1 with a row, in the order they are pushed; `InterceptsLength` states that an edge contributes one exactly when it crosses the row. |
| Polygon.Crossings | main.cpp:194-201 | All the intercepts of one row, before sorting; `EvenCrossings`, `OneSideNoCrossings` and `RowFill` describe them. |
| Polygon.CrossingParity | main.cpp:194-201 | Walking the outline from vertex 0 to vertex k, the number of crossings is odd iff the walk changed sides of the row. |
| Polygon.EvenCrossings | main.cpp:194-201 | Because the outline is closed, every row has an even number of crossings, so the sorted list splits into whole pairs. |
| Polygon.OneSideNoCrossings | main.cpp:194-201 | A row with all vertices on one side has no crossings. |
| Polygon.MinY | main.cpp:185-189 | The running minimum is at most the start value and every vertex's y, and it is the start value or some vertex's y. |
| Polygon.MaxY | main.cpp:185-189 | The running maximum is at least the start value and every vertex's y, and it is the start value or some vertex's y. |
| Polygon.SkippedRowEmpty | main.cpp:190-192 | In-buffer rows outside the clamped scan range have no crossings, so the clamping loses nothing. |
| Polygon.PairSpans | main.cpp:203-209 | The spans name exactly the in-buffer pixels of the row that lie within one of the pairs. |
| Polygon.ScanLine | main.cpp:193-209 | One row's pixels are those inside a pair of the sorted crossings. |
| Polygon.ScanRows | main.cpp:192-210 | The rows y0..y1 name exactly the pixels of those rows inside a pair of their row's sorted crossings. |
| Polygon.FilledPolygonPoints | main.cpp:183-211 | The points `draw_filled_polygon` hands to `draw_pixel`, row by row over the clamped scan range. Each is in the buffer and inside a pair of its row's sorted crossings; `FilledExactly` characterises the set. |
| Polygon.PairSpansOverdraw | main.cpp:203-209 | When two pairs share an end point (sorted crossings a, m, m, b, as where the outline touches the row at a vertex from both sides), the pixel (m, y) is named twice. |
| Polygon.FilledExactly | main.cpp:183-211 | The scan names only in-buffer pixels, and names an in-buffer pixel iff the even-odd rule puts it inside: it is a crossing, or an odd number of crossings lie to its left. |
| Polygon.RowFill | main.cpp:202-209 | On one row, filling between the pairs of the sorted crossings is the even-odd rule applied to the crossings in any order. |
| Polygon.DrawFilledPolygon | main.cpp:183-211 | Fewer than three vertices draw nothing, and pixels outside the even-odd interior are unchanged. With an opaque colour every interior pixel ends up that colour. |
| Utf8.MasksAgree | main.cpp:225-228 | The lead-byte mask tests and the field masks are the arithmetic forms the model uses. |
| Utf8.LeadRanges | main.cpp:225-228 | The mask tests select the lead-byte ranges C0-DF, E0-EF and F0-F7. The bytes that start no sequence are 80-BF and F8-FF. |
| Utf8.Advance | main.cpp:264-269 | The pointer moves 1 to 4 bytes, and exactly 1 iff the byte is ASCII or starts no sequence. |
| Utf8.DecodeAt | main.cpp:222-230 | The decoded value is always below 2^21. |
| Utf8.BadLeadReplaced | main.cpp:224-229 | A byte that starts no sequence decodes to U+FFFD and is skipped on its own. |
| Utf8.DecodeReadsWindow | main.cpp:222-230 | The decoder depends only on the bytes the pointer advance then skips. |
| Utf8.DecodeReadsLast | main.cpp:225-228 | The decoder reads the last of those bytes: its low six bits are the result's low six bits. |
| Utf8.RoundTrip | main.cpp:222-230 | Decoding the RFC 3629 encoding of any code point up to U+10FFFF, anywhere in a text, gives the code point back. The pointer moves past exactly the encoding. |
| Utf8.WellFormedDecodes | main.cpp:222-230 | Each well-formed character (section 4 of RFC 3629) decodes to a scalar value whose encoding is exactly those bytes. The pointer moves past exactly them. |
| Utf8.Lenient | main.cpp:225-228 | The overlong C0 80, the surrogate ED A0 80 and F4 90 80 80 are not rejected; they decode to 0, U+D800 and 0x110000. |
| Glyphs.SearchFrom | main.cpp:213-220 | The loop answers -1 iff no entry contains the code point. Otherwise it answers the first matching entry's offset plus the distance from that entry's start. |
| Glyphs.FontIndex | main.cpp:213-220 | `unicode_to_font_index`: the search from the first entry of the table; `NoGlyph` and `FontIndexOfRange` state its result. |
| Glyphs.RangesAscending | main.cpp:22-28 | The table's code point intervals are ascending and pairwise disjoint. |
| Glyphs.FontIndexOfRange | main.cpp:213-220 | Whichever entry contains the code point decides its index, and the index lies in 0..479. |
| Glyphs.NoGlyph | main.cpp:213-220 | The lookup gives -1 iff no range contains the code point, and otherwise an index in 0..479. |
| Glyphs.Latin1Identity | main.cpp:23 | A code point up to U+00FF is its own glyph index. |
| Glyphs.SharedGlyphs | main.cpp:22-28 | Box drawing shares indices with Hiragana and the private-use block: U+2540 and U+3040 both map to 384, and U+2580, U+3080 and U+E541 all map to 448. |
| Text.BitAgrees | main.cpp:235 | The mask test `bitmap[row] & (1 << col)` reads bit col, least significant first. |
| Text.Block | main.cpp:237-241 | The dy and dx loops name exactly the scale x scale block, each pixel once. |
| Text.CharCells | main.cpp:233-244 | The glyph loops name exactly the pixels whose cell bit is set, each once. |
| Text.DrawChar | main.cpp:232-245 | Pixels whose cell bit is set are blended once, and all others are unchanged, in particular those outside the 8*scale box. A scale below 1 draws nothing. |
| Text.DrawCharBlock | main.cpp:237-241 | A set bit paints its whole scale x scale block, and a clear bit leaves the block alone. |
| Text.Step | main.cpp:251-269 | Each iteration moves the pointer forward by 1 to 4 bytes. |
| Text.Placed | main.cpp:252-263 | The `draw_char` call one iteration makes: none for a newline or an unmapped character, otherwise one at the cursor with the character's glyph. |
| Text.Run | main.cpp:251-270 | The `draw_char` calls of the `draw_text` loop, in order. `RunPlacements` states what every call shows; `MappedStep`, `NewlineStartsLine` and `UnmappedSkipped` state each kind of iteration. |
| Text.RunPlacements | main.cpp:251-270 | Every `draw_char` call shows the glyph of a character inside the text that is not a newline and has a glyph. The calls come in text order, at most one per byte. |
| Text.NewlineStartsLine | main.cpp:252-257 | A newline places nothing. Drawing resumes at the starting x, 8*scale + lineHeight further down. |
| Text.UnmappedSkipped | main.cpp:258-269 | A character without a glyph places nothing and leaves the cursor in place; only the pointer moves past its bytes. |
| Text.MappedStep | main.cpp:258-269 | Any character with a glyph, multi-byte ones included, places its glyph at the cursor. The cursor then moves one pitch (8*scale + spacing) right, and the pointer moves past the character's bytes. |
| Text.StepPastEnd | main.cpp:264-269 | A multi-byte lead as the last byte sends the pointer past the end of the text. |
| Text.AsciiStep | main.cpp:258-269 | A plain ASCII byte places its own glyph at the cursor, which then moves one pitch right. |
| Text.AsciiLine | main.cpp:258-263 | Plain ASCII is laid out on one line: glyph k shows byte k, k pitches (8*scale + spacing) right of the start. |
| Text.DrawGlyphs | main.cpp:261 | Drawing the placed glyphs changes no pixel outside every glyph box, nor any pixel no glyph's set bits cover. An opaque colour covers every pixel some placed glyph's set bit covers. |
| Text.DrawText | main.cpp:247-271 | The text's glyphs are drawn at the layout loop's cursor positions. Pixels outside their boxes, or covered by no set bit, keep their colour; an opaque colour covers every set bit of every placed glyph. |
| Ppm.Decimal | main.cpp:33 | `ostream << n` writes one or more decimal digits, with no leading zero unless n = 0. |
| Ppm.ValueDecimal | main.cpp:33 | The digits written for n denote n. |
| Ppm.Body | main.cpp:34-42 | Each pixel contributes exactly three bytes, red, green and blue, in buffer order. |
| Ppm.SavePpm | main.cpp:31-44 | The file is the header followed by exactly three bytes per pixel. |
| Ppm.SavePpmPixel | main.cpp:34-42 | Bytes 3i, 3i + 1 and 3i + 2 after the header are pixel i's red, green and blue; alpha is not written. |
| Ppm.ReadDecimal | main.cpp:33 | A written number is read back when a non-digit follows it. |
| Ppm.HeaderFields | main.cpp:33 | Any two non-empty digit strings written into the header are read back as their values, whatever follows. |
| Ppm.HeaderRoundTrip | main.cpp:33 | The header `P6\n<w> <h>\n255\n` is read back as the width and height, whatever follows it. |
| Ppm.RoundTrip | main.cpp:31-44 | Reading the file back gives the buffer again with every pixel made opaque. |
| Ppm.RoundTripOpaque | main.cpp:31-44 | A buffer of opaque pixels survives the round trip unchanged. |

## Left out

- draw_line and draw_polygon: `draw_line` does not compile. Line 103 assigns in its condition, and line 108 uses an undeclared `alpha`. `draw_polygon` only calls `draw_line`.
- draw_circle: it works in single-precision floating point (`std::hypot`, float radius and coverage). The `draw_circle_aa` that `main` calls is not defined in the file.
- Raster.DrawPixel: the coverage argument is fixed at its default 1.0. Only the float circle passes anything else, and with 1.0 the alpha is unchanged.
- Pixel.Mix: computed exactly, as the truncated rational (s*a + d*(255 - a)) / 255. The source computes it in single precision and truncates, and float rounding just below an integer can make that one lower than the exact value. The contract states only the end points and the between-ness of the exact value.
- Pixel.Blend: inherits Mix's exact arithmetic. The destination's alpha is ignored, as in the source.
- The frame size: `WIDTH` and `HEIGHT` are the frame's own width and height, so any size can be modelled. `NewFrame(1920, 1080)` is the source's buffer.
- The glyph bitmaps (`fonts`, from fonts.hpp) are not part of this model. `DrawText` and `DrawGlyphs` take them as a function from glyph index to eight bytes. Indexing past the end of that table is not modelled.
- main: builds a demo scene and calls `save_ppm`; it is not part of the core.
- Ppm.SavePpm: file opening, writing and closing are not modelled, only the bytes written. Width and height are the frame's own, whereas the source takes them as separate arguments and does not check them against the buffer's size.
- The end of the text: the source reads a NUL-terminated string. In the model, `Utf8.ByteAt` reads 0 at and beyond the end of the byte sequence, and the loop stops at the first 0 the pointer lands on. As in the source, a 0 inside a multi-byte window is stepped over: in C3 00 41 the lead C3 moves the pointer two bytes, past the 0, and 'A' is drawn. The source instead reads past the terminator when the text ends inside a multi-byte sequence (see Findings).
- 32-bit overflow: the cursor of `draw_text` and the coordinates of the rectangles and the circle are unbounded integers. The polygon intercept is shown free of overflow only for coordinates of magnitude at most 2^14 (`Polygon.EdgeXFits`).
- Polygon.DrawFilledPolygon: the final colour of an interior pixel is stated only for an opaque colour. The fill can name a pixel twice, where two pairs of sorted crossings share an end point (`PairSpansOverdraw`), and there a translucent colour is blended twice.
- Text.DrawText: with a translucent colour, the final value of a pixel that overlapping glyphs cover more than once is not given in closed form. The contract covers unchanged pixels and opaque colours; `DrawChar` states the single-glyph blend.
- Default arguments: `draw_rect`'s line width 1 and colour 0xFF000000 are `Rect.DefaultLineWidth` and `Rect.DefaultColor`, and `draw_text`'s and `draw_char`'s scale 1, spacing 2 and line height 10 are `Text.DefaultStyle`. Dafny has no default arguments, so callers pass them explicitly.

## Findings

| source | as written | input that shows it | evidently intended | confidence | as-written member | corrected member |
|---|---|---|---|---|---|---|
| main.cpp:264-269 | The pointer moves 2, 3 or 4 bytes after a multi-byte lead without checking that the bytes exist. A text ending in such a lead skips the NUL terminator, and the loop and `utf8_to_codepoint` read past the string. | the one-byte text "\xE0": the pointer moves to offset 3, past the terminator at offset 1 | The loop stops at the terminator, and a truncated sequence reads no byte beyond it. | high; not executed | Text.StepPastEnd | Text.RunPlacements |
