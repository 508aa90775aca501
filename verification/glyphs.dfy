/** The code point to glyph index mapping of the bitmap font
    (fontRanges and unicode_to_font_index in main.cpp). */
module Glyphs {

  /** One entry of the range table: the code points start..end (both
      included) use the glyphs indexOffset, indexOffset + 1, ... */
  datatype Range = Range(start: int, end: int, indexOffset: int)

  predicate InRange(r: Range, cp: int) { r.start <= cp <= r.end }

  /** Latin-1, Greek, box drawing, Hiragana, and a private-use block. */
  const FontRanges: seq<Range> := [
    Range(0x0000, 0x00FF, 0),
    Range(0x0390, 0x03C9, 256),
    Range(0x2500, 0x259F, 320),
    Range(0x3040, 0x309F, 384),
    Range(0xE541, 0xE55A, 448)
  ]

  /** The largest index the table hands out: the last box-drawing glyph. */
  const MaxGlyphIndex := 479

  /** Entry k is the first entry from i on that contains cp. */
  predicate FirstMatch(table: seq<Range>, cp: int, i: int, k: int) {
    && 0 <= i <= k < |table| && InRange(table[k], cp)
    && forall j :: i <= j < k ==> !InRange(table[j], cp)
  }

  /** The source's loop over the table from entry i on: the answer of the
      first entry that contains cp, and -1 when none does. */
  function SearchFrom(table: seq<Range>, cp: int, i: nat): (idx: int)
    requires i <= |table|
    requires forall k :: 0 <= k < |table| ==> table[k].indexOffset >= 0
    ensures idx == -1 <==> forall k :: i <= k < |table| ==> !InRange(table[k], cp)
    ensures forall k :: FirstMatch(table, cp, i, k) ==>
      idx == table[k].indexOffset + (cp - table[k].start)
    decreases |table| - i
  {
    if i == |table| then -1
    else if InRange(table[i], cp) then table[i].indexOffset + (cp - table[i].start)
    else SearchFrom(table, cp, i + 1)
  }

  /** unicode_to_font_index */
  function FontIndex(cp: int): int {
    SearchFrom(FontRanges, cp, 0)
  }

  /** The code point intervals are ascending and do not overlap, so the
      first entry that contains a code point is the only one. */
  lemma RangesAscending()
    ensures forall j, k :: 0 <= j < k < |FontRanges| ==> FontRanges[j].end < FontRanges[k].start
    ensures forall k :: 0 <= k < |FontRanges| ==> FontRanges[k].start <= FontRanges[k].end
  {}

  /** Whichever entry contains the code point decides its glyph index ... */
  lemma FontIndexOfRange(cp: int, k: int)
    requires 0 <= k < |FontRanges| && InRange(FontRanges[k], cp)
    ensures FontIndex(cp) == FontRanges[k].indexOffset + (cp - FontRanges[k].start)
    ensures 0 <= FontIndex(cp) <= MaxGlyphIndex
  {
    RangesAscending();
    forall j | 0 <= j < k
      ensures !InRange(FontRanges[j], cp)
    {
      assert FontRanges[j].end < FontRanges[k].start;
    }
  }

  /** ... and a code point no entry contains has no glyph. */
  lemma NoGlyph(cp: int)
    ensures FontIndex(cp) == -1 <==> forall k :: 0 <= k < |FontRanges| ==> !InRange(FontRanges[k], cp)
    ensures FontIndex(cp) != -1 ==> 0 <= FontIndex(cp) <= MaxGlyphIndex
  {
    if FontIndex(cp) != -1 {
      var k :| 0 <= k < |FontRanges| && InRange(FontRanges[k], cp);
      FontIndexOfRange(cp, k);
    }
  }

  /** The first block is Latin-1 at offset 0: a code point below U+0100 is
      its own glyph index. */
  lemma Latin1Identity(cp: int)
    requires 0 <= cp <= 0xFF
    ensures FontIndex(cp) == cp
  {
    FontIndexOfRange(cp, 0);
  }

  /** The index blocks overlap although the code point blocks do not: the
      box-drawing block's indices 384.. are reused by Hiragana and 448.. by
      the private-use block, so distinct characters share a glyph. */
  lemma SharedGlyphs()
    ensures FontIndex(0x2540) == FontIndex(0x3040) == 384
    ensures FontIndex(0x2580) == FontIndex(0x3080) == FontIndex(0xE541) == 448
  {
    FontIndexOfRange(0x2540, 2);
    FontIndexOfRange(0x3040, 3);
    FontIndexOfRange(0x2580, 2);
    FontIndexOfRange(0x3080, 3);
    FontIndexOfRange(0xE541, 4);
  }
}
