/** UTF-8 decoding of the text handed to draw_text (utf8_to_codepoint and
    the pointer advance in draw_text, main.cpp), against the encoding of
    section 3 of RFC 3629.

    The decoder classifies the lead byte with the masks 0xE0, 0xF0 and 0xF8,
    takes the low bits of the lead and the low six bits of each following
    byte, and answers U+FFFD for a byte that cannot start a sequence. It
    does not look at the continuation bytes' tag bits, and does not refuse
    overlong forms, surrogates or values above U+10FFFF: it agrees with
    RFC 3629 on every well-formed sequence and is lenient on the rest.

    Bytes are numbers in [0, 256). On such a number the source's masks are
    arithmetic: `b & 0x3F` is `b % 0x40`, and `(b & 0xE0) == 0xC0` says the
    top three bits are 110, that is `b / 0x20 == 6` (MasksAgree checks each
    form against the bit operation). The source's shifts and bitwise ors
    combine fields that do not overlap, so they are products and sums. */
module Utf8 {
  import opened Arith

  /** Byte i of the text, 0 at and beyond its end: the source reads a
      NUL-terminated string, and the model reads 0 wherever the source
      would read the terminator or run past it. */
  function ByteAt(s: seq<Byte>, i: int): Byte {
    if 0 <= i < |s| then s[i] else 0
  }

  predicate IsAscii(b: Byte) { b < 0x80 }
  /** (b & 0xE0) == 0xC0 */
  predicate Lead2(b: Byte) { b / 0x20 == 0x6 }
  /** (b & 0xF0) == 0xE0 */
  predicate Lead3(b: Byte) { b / 0x10 == 0xE }
  /** (b & 0xF8) == 0xF0 */
  predicate Lead4(b: Byte) { b / 0x8 == 0x1E }

  /** A byte that starts no sequence. */
  predicate BadLead(b: Byte) { !IsAscii(b) && !Lead2(b) && !Lead3(b) && !Lead4(b) }

  /** The arithmetic forms above are the source's bit operations. */
  lemma MasksAgree(b: bv8)
    ensures (b & 0xE0 == 0xC0) <==> Lead2(b as int)
    ensures (b & 0xF0 == 0xE0) <==> Lead3(b as int)
    ensures (b & 0xF8 == 0xF0) <==> Lead4(b as int)
    ensures (b & 0x3F) as int == b as int % 0x40 && (b & 0x1F) as int == b as int % 0x20
    ensures (b & 0x0F) as int == b as int % 0x10 && (b & 0x07) as int == b as int % 0x8
  {}

  /** The mask tests pick out the lead-byte ranges of RFC 3629's table;
      the bytes that start no sequence are the continuation bytes
      0x80-0xBF and 0xF8-0xFF. */
  lemma LeadRanges(b: Byte)
    ensures Lead2(b) <==> 0xC0 <= b <= 0xDF
    ensures Lead3(b) <==> 0xE0 <= b <= 0xEF
    ensures Lead4(b) <==> 0xF0 <= b <= 0xF7
    ensures BadLead(b) <==> (0x80 <= b <= 0xBF || 0xF8 <= b)
  {}

  /** How far draw_text moves its pointer after the character whose lead
      byte is `lead`: the sequence length the lead announces, and one byte
      for a byte that starts no sequence. */
  function Advance(lead: Byte): (n: int)
    ensures 1 <= n <= 4
    ensures n == 1 <==> IsAscii(lead) || BadLead(lead)
  {
    if IsAscii(lead) then 1
    else if Lead2(lead) then 2
    else if Lead3(lead) then 3
    else if Lead4(lead) then 4
    else 1
  }

  /** utf8_to_codepoint applied to the text from byte i on. */
  function DecodeAt(s: seq<Byte>, i: int): (c: int)
    ensures 0 <= c < 0x20_0000
  {
    var b0, b1, b2, b3 := ByteAt(s, i), ByteAt(s, i + 1), ByteAt(s, i + 2), ByteAt(s, i + 3);
    if IsAscii(b0) then b0
    else if Lead2(b0) then (b0 % 0x20) * 0x40 + b1 % 0x40
    else if Lead3(b0) then (b0 % 0x10) * 0x1000 + (b1 % 0x40) * 0x40 + b2 % 0x40
    else if Lead4(b0) then
      (b0 % 0x8) * 0x4_0000 + (b1 % 0x40) * 0x1000 + (b2 % 0x40) * 0x40 + b3 % 0x40
    else 0xFFFD
  }

  /** A byte that starts no sequence decodes to U+FFFD and is skipped on
      its own. */
  lemma BadLeadReplaced(s: seq<Byte>, i: int)
    requires 0x80 <= ByteAt(s, i) <= 0xBF || 0xF8 <= ByteAt(s, i)
    ensures DecodeAt(s, i) == 0xFFFD && Advance(ByteAt(s, i)) == 1
  {
    LeadRanges(ByteAt(s, i));
  }

  /** The n bytes from byte i on. */
  function Window(s: seq<Byte>, i: int, n: nat): (w: seq<Byte>)
    ensures |w| == n && forall k :: 0 <= k < n ==> w[k] == ByteAt(s, i + k)
  {
    seq<Byte>(n, k => ByteAt(s, i + k))
  }

  /** The decoder reads exactly the bytes the pointer advance skips: it
      depends on nothing past them ... */
  lemma DecodeReadsWindow(s: seq<Byte>, i: int, t: seq<Byte>, j: int)
    requires Window(s, i, Advance(ByteAt(s, i))) == Window(t, j, Advance(ByteAt(s, i)))
    ensures DecodeAt(s, i) == DecodeAt(t, j)
  {
    var n := Advance(ByteAt(s, i));
    var w := Window(s, i, n);
    assert ByteAt(s, i) == w[0] == ByteAt(t, j);
    if n >= 2 { assert ByteAt(s, i + 1) == w[1] == ByteAt(t, j + 1); }
    if n >= 3 { assert ByteAt(s, i + 2) == w[2] == ByteAt(t, j + 2); }
    if n >= 4 { assert ByteAt(s, i + 3) == w[3] == ByteAt(t, j + 3); }
  }

  /** ... and it does read the last of them: the low six bits of the last
      byte of a multi-byte sequence are the low six bits of the result. */
  lemma DecodeReadsLast(s: seq<Byte>, i: int, b: Byte)
    requires 0 <= i && i + Advance(ByteAt(s, i)) - 1 < |s| && Advance(ByteAt(s, i)) >= 2
    ensures var last := i + Advance(ByteAt(s, i)) - 1;
      DecodeAt(s[last := b], i) - b % 0x40 == DecodeAt(s, i) - s[last] % 0x40
  {
    var last := i + Advance(ByteAt(s, i)) - 1;
    var t := s[last := b];
    assert ByteAt(t, i) == ByteAt(s, i);
    assert last != i + 1 ==> ByteAt(t, i + 1) == ByteAt(s, i + 1);
    assert last != i + 2 ==> ByteAt(t, i + 2) == ByteAt(s, i + 2);
  }

  /** The UTF-8 encoding of a code point in section 3 of RFC 3629: one byte
      below U+0080, two below U+0800, three below U+10000, four up to
      U+10FFFF, the lead announcing the length. */
  function Encode(c: int): (r: seq<Byte>)
    requires 0 <= c <= 0x10_FFFF
    ensures |r| == if c < 0x80 then 1 else if c < 0x800 then 2 else if c < 0x1_0000 then 3 else 4
    ensures Advance(r[0]) == |r|
  {
    if c < 0x80 then [c]
    else if c < 0x800 then
      LeadRanges(0xC0 + c / 0x40);
      [0xC0 + c / 0x40, Tail(c)]
    else if c < 0x1_0000 then
      LeadRanges(0xE0 + c / 0x1000);
      [0xE0 + c / 0x1000, Tail(c / 0x40), Tail(c)]
    else
      LeadRanges(0xF0 + c / 0x4_0000);
      [0xF0 + c / 0x4_0000, Tail(c / 0x1000), Tail(c / 0x40), Tail(c)]
  }

  /** A continuation byte 10xxxxxx carrying the low six bits of v. */
  function Tail(v: int): (b: Byte)
    requires v >= 0
    ensures 0x80 <= b <= 0xBF && b % 0x40 == v % 0x40
  {
    0x80 + v % 0x40
  }

  /** Encoding a code point and decoding it again, wherever the encoding
      sits in the text, gives the code point back, and the pointer moves
      past exactly the encoding. */
  lemma RoundTrip(c: int, pre: seq<Byte>, post: seq<Byte>)
    requires 0 <= c <= 0x10_FFFF
    ensures DecodeAt(pre + Encode(c) + post, |pre|) == c
    ensures Advance(ByteAt(pre + Encode(c) + post, |pre|)) == |Encode(c)|
  {
    var e := Encode(c);
    var s := pre + e + post;
    assert Window(s, |pre|, |e|) == Window(e, 0, |e|) by {
      forall k | 0 <= k < |e|
        ensures s[|pre| + k] == e[k]
      {}
    }
    DecodeReadsWindow(e, 0, s, |pre|);
    DecodeEncoded(c);
  }

  lemma DecodeEncoded(c: int)
    requires 0 <= c <= 0x10_FFFF
    ensures DecodeAt(Encode(c), 0) == c
  {
    var e := Encode(c);
    LeadRanges(e[0]);
    var b0: int, b1: int := e[0], ByteAt(e, 1);
    if c < 0x80 {
    } else if c < 0x800 {
      assert DecodeAt(e, 0) == (b0 % 0x20) * 0x40 + b1 % 0x40;
    } else if c < 0x1_0000 {
      var b2: int := e[2];
      assert DecodeAt(e, 0) == (b0 % 0x10) * 0x1000 + (b1 % 0x40) * 0x40 + b2 % 0x40;
      SplitThree(c);
    } else {
      var b2: int, b3: int := e[2], e[3];
      assert DecodeAt(e, 0) == (b0 % 0x8) * 0x4_0000 + (b1 % 0x40) * 0x1000 + (b2 % 0x40) * 0x40 + b3 % 0x40;
      SplitFour(c);
    }
  }

  /** A code point is its six-bit fields in positional notation. */
  lemma SplitThree(c: int)
    requires 0 <= c < 0x1_0000
    ensures c == (c / 0x1000) * 0x1000 + ((c / 0x40) % 0x40) * 0x40 + c % 0x40
  {
    var q := c / 0x40;
    assert c / 0x1000 == q / 0x40;
  }

  lemma SplitFour(c: int)
    requires 0 <= c <= 0x10_FFFF
    ensures c == (c / 0x4_0000) * 0x4_0000 + ((c / 0x1000) % 0x40) * 0x1000
      + ((c / 0x40) % 0x40) * 0x40 + c % 0x40
  {
    var q := c / 0x40;
    var q2 := q / 0x40;
    assert c / 0x1000 == q2;
    assert c / 0x4_0000 == q2 / 0x40;
  }

  /** A Unicode scalar value: a code point that is not a surrogate. */
  predicate IsScalar(c: int) { 0 <= c <= 0x10_FFFF && !(0xD800 <= c <= 0xDFFF) }

  /** The syntax of one well-formed character, section 4 of RFC 3629. */
  predicate WellFormedChar(e: seq<Byte>) {
    match |e|
    case 1 => e[0] <= 0x7F
    case 2 => 0xC2 <= e[0] <= 0xDF && 0x80 <= e[1] <= 0xBF
    case 3 =>
      && 0x80 <= e[2] <= 0xBF
      && (if e[0] == 0xE0 then 0xA0 <= e[1] <= 0xBF
          else if e[0] == 0xED then 0x80 <= e[1] <= 0x9F
          else 0xE1 <= e[0] <= 0xEF && 0x80 <= e[1] <= 0xBF)
    case 4 =>
      && 0x80 <= e[2] <= 0xBF && 0x80 <= e[3] <= 0xBF
      && (if e[0] == 0xF0 then 0x90 <= e[1] <= 0xBF
          else if e[0] == 0xF4 then 0x80 <= e[1] <= 0x8F
          else 0xF1 <= e[0] <= 0xF3 && 0x80 <= e[1] <= 0xBF)
    case _ => false
  }

  /** The encoder produces well-formed UTF-8 for every scalar value. */
  lemma EncodeWellFormed(c: int)
    requires IsScalar(c)
    ensures WellFormedChar(Encode(c))
  {
    if 0x800 <= c < 0x1_0000 {
      assert c / 0x1000 == (c / 0x40) / 0x40;
    } else if 0x1_0000 <= c {
      assert c / 0x4_0000 == (c / 0x1000) / 0x40;
    }
  }

  /** Conversely, every well-formed character in the text decodes to a
      scalar value whose encoding is exactly those bytes, and the pointer
      moves past exactly them: on well-formed input the decoder is the
      inverse of RFC 3629's encoding. */
  lemma WellFormedDecodes(s: seq<Byte>, i: int, n: int)
    requires 0 <= i <= i + n <= |s| && WellFormedChar(s[i..i + n])
    ensures Advance(s[i]) == n
    ensures IsScalar(DecodeAt(s, i)) && Encode(DecodeAt(s, i)) == s[i..i + n]
  {
    var e := s[i..i + n];
    assert e[0] == s[i];
    LeadRanges(e[0]);
    DecodeReadsWindow(s, i, e, 0) by {
      assert Window(s, i, n) == Window(e, 0, n);
    }
    if n == 2 {
      DecodeWellFormedTwo(e);
    } else if n == 3 {
      DecodeWellFormedThree(e);
    } else if n == 4 {
      DecodeWellFormedFour(e);
    }
  }

  lemma DecodeWellFormedTwo(e: seq<Byte>)
    requires |e| == 2 && WellFormedChar(e)
    ensures IsScalar(DecodeAt(e, 0)) && Encode(DecodeAt(e, 0)) == e
  {
    LeadRanges(e[0]);
    var c := DecodeAt(e, 0);
    var b0: int, b1: int := e[0], e[1];
    assert c == (b0 % 0x20) * 0x40 + b1 % 0x40;
    assert c / 0x40 == b0 % 0x20 && c % 0x40 == b1 % 0x40;
  }

  lemma DecodeWellFormedThree(e: seq<Byte>)
    requires |e| == 3 && WellFormedChar(e)
    ensures IsScalar(DecodeAt(e, 0)) && Encode(DecodeAt(e, 0)) == e
  {
    LeadRanges(e[0]);
    var c := DecodeAt(e, 0);
    var b0: int, b1: int, b2: int := e[0], e[1], e[2];
    assert c == (b0 % 0x10) * 0x1000 + (b1 % 0x40) * 0x40 + b2 % 0x40;
    assert c / 0x40 == (b0 % 0x10) * 0x40 + b1 % 0x40;
    assert c / 0x1000 == b0 % 0x10;
  }

  lemma DecodeWellFormedFour(e: seq<Byte>)
    requires |e| == 4 && WellFormedChar(e)
    ensures IsScalar(DecodeAt(e, 0)) && Encode(DecodeAt(e, 0)) == e
  {
    LeadRanges(e[0]);
    var m0: int, m1: int, m2: int, m3: int := e[0] - 0xF0, e[1] - 0x80, e[2] - 0x80, e[3] - 0x80;
    var c := DecodeAt(e, 0);
    assert c == m0 * 0x4_0000 + m1 * 0x1000 + m2 * 0x40 + m3;
    FourFields(m0, m1, m2, m3);
    var r := Encode(c);
    assert r[0] == e[0] && r[1] == e[1] && r[2] == e[2] && r[3] == e[3];
  }

  /** Reading four fields back out of the number they make up. */
  lemma FourFields(m0: int, m1: int, m2: int, m3: int)
    requires 0 <= m0 <= 4 && 0 <= m1 < 0x40 && 0 <= m2 < 0x40 && 0 <= m3 < 0x40
    ensures var c := m0 * 0x4_0000 + m1 * 0x1000 + m2 * 0x40 + m3;
      && c % 0x40 == m3 && (c / 0x40) % 0x40 == m2 && (c / 0x1000) % 0x40 == m1
      && c / 0x4_0000 == m0
  {
    var c := m0 * 0x4_0000 + m1 * 0x1000 + m2 * 0x40 + m3;
    var q1 := m0 * 0x1000 + m1 * 0x40 + m2;
    var q2 := m0 * 0x40 + m1;
    assert c == q1 * 0x40 + m3;
    DivModUnique(q1, m3, 0x40);
    assert q1 == q2 * 0x40 + m2;
    DivModUnique(q2, m2, 0x40);
    DivModUnique(m0, m1, 0x40);
    DivDiv(c, 0x40, 0x40);
    DivDiv(c, 0x1000, 0x40);
  }

  /** The decoder is lenient where RFC 3629 asks for rejection: the
      overlong form C0 80 decodes to U+0000, the surrogate form ED A0 80 to
      U+D800, and F4 90 80 80 to 0x110000, beyond the Unicode range. */
  lemma Lenient()
    ensures DecodeAt([0xC0, 0x80], 0) == 0
    ensures DecodeAt([0xED, 0xA0, 0x80], 0) == 0xD800
    ensures DecodeAt([0xF4, 0x90, 0x80, 0x80], 0) == 0x11_0000
  {}
}
