/** Packed 32-bit ARGB colours and the compositing rule used by every
    drawing primitive (blend_colors in main.cpp).

    A colour is kept as a mathematical integer in [0, 2^32); the source's
    shift-and-mask channel extraction `(c >> k) & 0xFF` is the arithmetic
    `(c / 2^k) % 256` on that range (ChannelsAgree). */
module Pixel {
  import opened Arith

  /** A 32-bit unsigned packed colour: alpha in bits 24-31, red 16-23,
      green 8-15, blue 0-7. */
  type Color = c: int | 0 <= c < 0x1_0000_0000

  function Alpha(c: Color): Byte { c / 0x100_0000 }
  function Red(c: Color): Byte { (c / 0x1_0000) % 256 }
  function Green(c: Color): Byte { (c / 0x100) % 256 }
  function Blue(c: Color): Byte { c % 256 }

  /** `(a << 24) | (r << 16) | (g << 8) | b`: the four fields do not overlap,
      so the bitwise or is a sum (PackAgrees). */
  function Pack(a: Byte, r: Byte, g: Byte, b: Byte): (c: Color)
    ensures Alpha(c) == a && Red(c) == r && Green(c) == g && Blue(c) == b
  {
    var hi := a * 0x100 + r;
    var mid := hi * 0x100 + g;
    var c := mid * 0x100 + b;
    DivModUnique(mid, b, 0x100);
    DivModUnique(hi, g, 0x100);
    DivModUnique(a, r, 0x100);
    assert c / 0x1_0000 == hi by {
      DivDiv(c, 0x100, 0x100);
    }
    assert c / 0x100_0000 == a by {
      DivDiv(c, 0x1_0000, 0x100);
    }
    c
  }

  /** Unpacking and repacking a colour gives it back: the four channels
      determine the colour. */
  lemma PackUnpack(c: Color)
    ensures Pack(Alpha(c), Red(c), Green(c), Blue(c)) == c
  {
    var q1 := c / 0x100;
    assert c == q1 * 0x100 + Blue(c);
    var q2 := q1 / 0x100;
    assert q1 == q2 * 0x100 + Green(c);
    assert q2 == c / 0x1_0000;
    assert q2 == Alpha(c) * 0x100 + Red(c);
  }

  /** The source's packing, shifts and ors on 32 bits, is Pack. */
  lemma PackAgrees(a: bv8, r: bv8, g: bv8, b: bv8)
    ensures ((a as bv32 << 24) | (r as bv32 << 16) | (g as bv32 << 8) | b as bv32) as int ==
      Pack(a as int, r as int, g as int, b as int)
  {
    OrIsSum(a, r, g, b);
    PackSum(a as int, r as int, g as int, b as int);
  }

  lemma OrIsSum(a: bv8, r: bv8, g: bv8, b: bv8)
    ensures ((a as bv32 << 24) | (r as bv32 << 16) | (g as bv32 << 8) | b as bv32) as int ==
      a as int * 0x100_0000 + r as int * 0x1_0000 + g as int * 0x100 + b as int
  {}

  lemma PackSum(a: Byte, r: Byte, g: Byte, b: Byte)
    ensures Pack(a, r, g, b) == a * 0x100_0000 + r * 0x1_0000 + g * 0x100 + b
  {
    assert (a * 0x100 + r) * 0x100 == a * 0x1_0000 + r * 0x100;
    assert ((a * 0x100 + r) * 0x100 + g) * 0x100 == a * 0x100_0000 + r * 0x1_0000 + g * 0x100;
  }

  /** The source's extractions `(c >> 24) & 0xFF` and so on, on 32 bits, are
      Alpha, Red, Green and Blue. */
  lemma ChannelsAgree(c: bv32)
    ensures ((c >> 24) & 0xFF) as int == Alpha(c as int)
    ensures ((c >> 16) & 0xFF) as int == Red(c as int)
    ensures ((c >> 8) & 0xFF) as int == Green(c as int)
    ensures (c & 0xFF) as int == Blue(c as int)
  {
    var a, r, g, b := (c >> 24) & 0xFF, (c >> 16) & 0xFF, (c >> 8) & 0xFF, c & 0xFF;
    Reassemble(c);
    Narrow(a);
    Narrow(r);
    Narrow(g);
    Narrow(b);
    PackAgrees(a as bv8, r as bv8, g as bv8, b as bv8);
  }

  /** A 32-bit word is the or of its four shifted bytes. */
  lemma Reassemble(c: bv32)
    ensures c == (((c >> 24) & 0xFF) << 24) | (((c >> 16) & 0xFF) << 16) | (((c >> 8) & 0xFF) << 8) | (c & 0xFF)
  {}

  lemma Narrow(x: bv32)
    requires x < 0x100
    ensures (x as bv8) as bv32 == x && (x as bv8) as int == x as int
  {}

  /** A colour that fully replaces whatever it is blended onto. */
  predicate Opaque(c: Color) { Alpha(c) == 255 }

  lemma DivBetween(v: int, lo: int, hi: int)
    requires 255 * lo <= v <= 255 * hi
    ensures lo <= v / 255 <= hi
  {}

  lemma MulNonPositiveMono(k: int, a: int, b: int)
    requires k <= 0 && 0 <= a <= b
    ensures k * b <= k * a
  {}

  /** One output channel: the convex combination s*(a/255) + d*(1 - a/255),
      truncated. The source computes it in single-precision floating point;
      this is the exact rational value, truncated. */
  function Mix(s: Byte, d: Byte, a: Byte): (o: Byte)
    ensures a == 255 ==> o == s
    ensures a == 0 ==> o == d
    ensures Between(o, s, d)
  {
    var v := s * a + d * (255 - a);
    MixBounds(s, d, a);
    if a == 255 then
      assert v == 255 * s;
      v / 255
    else if a == 0 then
      assert v == 255 * d;
      v / 255
    else
      v / 255
  }

  lemma MixBounds(s: Byte, d: Byte, a: Byte)
    ensures Between((s * a + d * (255 - a)) / 255, s, d)
  {
    var v := s * a + d * (255 - a);
    if s <= d {
      assert v == 255 * d + (s - d) * a;
      MulNonPositiveMono(s - d, a, 255);
      MulNonPositiveMono(s - d, 0, a);
      DivBetween(v, s, d);
    } else {
      assert v == 255 * s + (d - s) * (255 - a);
      MulNonPositiveMono(d - s, 255 - a, 255);
      MulNonPositiveMono(d - s, 0, 255 - a);
      DivBetween(v, d, s);
    }
  }

  /** Composites `src` onto the opaque destination `dst`; the result is
      always fully opaque. */
  function Blend(dst: Color, src: Color): (out: Color)
    ensures Opaque(out)
    ensures Opaque(src) ==> out == src
    ensures Alpha(src) == 0 ==>
      Red(out) == Red(dst) && Green(out) == Green(dst) && Blue(out) == Blue(dst)
    ensures Between(Red(out), Red(src), Red(dst))
    ensures Between(Green(out), Green(src), Green(dst))
    ensures Between(Blue(out), Blue(src), Blue(dst))
  {
    var a := Alpha(src);
    var out := Pack(255, Mix(Red(src), Red(dst), a), Mix(Green(src), Green(dst), a),
                    Mix(Blue(src), Blue(dst), a));
    if a == 255 then PackUnpack(src); out else out
  }

  /** Blending an opaque colour twice is the same as blending it once: the
      overdraw of the filled circle and the stroked rectangle is invisible
      for opaque colours. */
  lemma BlendOpaqueIdempotent(dst: Color, src: Color)
    requires Opaque(src)
    ensures Blend(Blend(dst, src), src) == Blend(dst, src)
  {}

  /** `src` blended onto `dst` n times over, as happens to a pixel that a
      primitive hands to draw_pixel n times. */
  function BlendRepeated(dst: Color, src: Color, n: nat): Color
    decreases n
  {
    if n == 0 then dst else BlendRepeated(Blend(dst, src), src, n - 1)
  }
}
