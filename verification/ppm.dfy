/** The image file written by save_ppm in main.cpp: the binary ("P6")
    variant of the Netpbm PPM format. A text header gives the magic number,
    the width and height in decimal and the maximum channel value 255,
    each followed by one whitespace byte; then come three bytes per pixel,
    red, green, blue, row by row. The alpha channel is not written.

    `ReadPpm` reads such a file back; it is the inverse the format
    promises, and the round-trip lemmas tie the two together. */
module Ppm {
  import opened Arith
  import opened Pixel
  import opened Raster

  datatype Option<T> = None | Some(value: T)

  /** The magic number line "P6\n" and the maximum-value line "\n255\n",
      as bytes. */
  const Magic: seq<Byte> := [0x50, 0x36, 0x0A]
  const MaxLine: seq<Byte> := [0x0A, 0x32, 0x35, 0x35, 0x0A]

  const Space: Byte := 0x20

  predicate IsDigit(b: Byte) { 0x30 <= b <= 0x39 }

  /** `ostream << n` for a non-negative int: decimal digits, most
      significant first, no leading zero. */
  function Decimal(n: nat): (r: seq<Byte>)
    ensures 1 <= |r| && (forall k :: 0 <= k < |r| ==> IsDigit(r[k]))
    ensures r[0] == 0x30 ==> n == 0
    decreases n
  {
    if n < 10 then [0x30 + n] else Decimal(n / 10) + [0x30 + n % 10]
  }

  /** The number a run of decimal digits denotes. */
  function Value(ds: seq<Byte>): nat
    requires forall k :: 0 <= k < |ds| ==> IsDigit(ds[k])
  {
    if |ds| == 0 then 0
    else
      var last: int := ds[|ds| - 1];
      assert IsDigit(ds[|ds| - 1]);
      Value(ds[..|ds| - 1]) * 10 + (last - 0x30)
  }

  lemma {:induction false} ValueDecimal(n: nat)
    ensures Value(Decimal(n)) == n
    decreases n
  {
    if n >= 10 {
      ValueDecimal(n / 10);
      var d := Decimal(n);
      assert d[..|d| - 1] == Decimal(n / 10);
    }
  }

  /** The header: magic number, width, height, maximum value. */
  function Header(w: nat, h: nat): seq<Byte> {
    Magic + Decimal(w) + [Space] + Decimal(h) + MaxLine
  }

  /** The three bytes of each pixel, in buffer order. */
  function Body(pixels: seq<Color>): (r: seq<Byte>)
    ensures |r| == 3 * |pixels|
    ensures forall i :: 0 <= i < |pixels| ==>
      r[3 * i] == Red(pixels[i]) && r[3 * i + 1] == Green(pixels[i]) && r[3 * i + 2] == Blue(pixels[i])
    decreases |pixels|
  {
    if |pixels| == 0 then []
    else
      var p := pixels[0];
      var rest := Body(pixels[1..]);
      var r := [Red(p), Green(p), Blue(p)] + rest;
      assert forall i :: 1 <= i < |pixels| ==> pixels[i] == pixels[1..][i - 1];
      r
  }

  /** save_ppm: the bytes written to the file for a frame buffer, the
      header followed by exactly three bytes per pixel. */
  function SavePpm(f: Frame): (r: seq<Byte>)
    requires f.Valid()
    ensures |r| == |Header(f.width, f.height)| + 3 * (f.width * f.height)
    ensures r[..|Header(f.width, f.height)|] == Header(f.width, f.height)
  {
    Header(f.width, f.height) + Body(f.pixels)
  }

  /** Bytes 3i, 3i + 1 and 3i + 2 after the header are the red, green and
      blue channels of pixel i; its alpha is not written. */
  lemma SavePpmPixel(f: Frame, i: int)
    requires f.Valid() && 0 <= i < f.width * f.height
    ensures var r, base := SavePpm(f), |Header(f.width, f.height)| + 3 * i;
      r[base] == Red(f.pixels[i]) && r[base + 1] == Green(f.pixels[i]) && r[base + 2] == Blue(f.pixels[i])
  {
    var hd, body := Header(f.width, f.height), Body(f.pixels);
    assert SavePpm(f)[|hd| + 3 * i] == body[3 * i];
    assert SavePpm(f)[|hd| + 3 * i + 1] == body[3 * i + 1];
    assert SavePpm(f)[|hd| + 3 * i + 2] == body[3 * i + 2];
  }

  /** How many digits start at byte i. */
  function DigitRun(s: seq<Byte>, i: nat): (n: nat)
    requires i <= |s|
    ensures i + n <= |s| && forall k :: i <= k < i + n ==> IsDigit(s[k])
    decreases |s| - i
  {
    if i < |s| && IsDigit(s[i]) then 1 + DigitRun(s, i + 1) else 0
  }

  /** A decimal number at byte i: its value and the index just after it. */
  function ReadNumber(s: seq<Byte>, i: nat): Option<(nat, nat)>
    requires i <= |s|
  {
    var n := DigitRun(s, i);
    if n == 0 then None else Some((Value(s[i..i + n]), i + n))
  }

  /** The channels of the pixel whose red byte is s[k]. */
  function PixelAt(s: seq<Byte>, k: int): Color
    requires 0 <= k && k + 2 < |s|
  {
    Pack(255, s[k], s[k + 1], s[k + 2])
  }

  /** The header at the start of s: width, height, and where the pixel
      bytes begin. */
  function ReadHeader(s: seq<Byte>): Option<(nat, nat, nat)> {
    if |s| < 3 || s[..3] != Magic then None
    else match ReadNumber(s, 3)
      case None => None
      case Some((w, i)) =>
        if i >= |s| || s[i] != Space then None
        else match ReadNumber(s, i + 1)
          case None => None
          case Some((h, j)) =>
            if |s| < j + 5 || s[j..j + 5] != MaxLine then None
            else Some((w, h, j + 5))
  }

  /** A reader for the files save_ppm writes: checks the header and the
      length, and makes every pixel opaque, the file having no alpha. */
  function ReadPpm(s: seq<Byte>): Option<Frame> {
    match ReadHeader(s)
    case None => None
    case Some((w, h, b)) =>
      if w == 0 || h == 0 || |s| - b != 3 * (w * h) then None
      else Some(Frame(w, h, seq(w * h, k requires 0 <= k < w * h => PixelAt(s, b + 3 * k))))
  }

  /** The colour with its alpha forced to 255: what survives the file. */
  function OpaqueOf(c: Color): (o: Color)
    ensures Opaque(o) && Red(o) == Red(c) && Green(o) == Green(c) && Blue(o) == Blue(c)
  {
    Pack(255, Red(c), Green(c), Blue(c))
  }

  /** The digits written for a number are read back as that number, when a
      non-digit follows them. */
  lemma ReadDecimal(pre: seq<Byte>, n: nat, post: seq<Byte>)
    requires |post| > 0 && !IsDigit(post[0])
    ensures var s := pre + Decimal(n) + post;
      ReadNumber(s, |pre|) == Some((n, |pre| + |Decimal(n)|))
  {
    var d := Decimal(n);
    var s := pre + d + post;
    Middle(pre, d, post);
    ReadDigitsIn(s, |pre|, d);
    ValueDecimal(n);
  }

  lemma {:induction false} RunLength(s: seq<Byte>, i: nat, m: nat)
    requires i + m < |s| && !IsDigit(s[i + m])
    requires forall k :: i <= k < i + m ==> IsDigit(s[k])
    ensures DigitRun(s, i) == m
    decreases m
  {
    if m > 0 {
      RunLength(s, i + 1, m - 1);
    }
  }

  /** ReadHeader accepts s when its four fields are where they should be. */
  lemma ReadHeaderFields(s: seq<Byte>, w: nat, h: nat, i: nat, j: nat)
    requires |s| >= 3 && forall k :: 0 <= k < 3 ==> s[k] == Magic[k]
    requires ReadNumber(s, 3) == Some((w, i)) && i < |s| && s[i] == Space
    requires ReadNumber(s, i + 1) == Some((h, j)) && j + 5 <= |s|
    requires forall k :: 0 <= k < 5 ==> s[j + k] == MaxLine[k]
    ensures ReadHeader(s) == Some((w, h, j + 5))
  {
    assert s[..3] == Magic;
    assert s[j..j + 5] == MaxLine;
  }

  /** The middle part of a three-part concatenation. */
  lemma Middle(a: seq<Byte>, b: seq<Byte>, c: seq<Byte>)
    ensures (a + b + c)[|a|..|a| + |b|] == b
  {
    assert forall k :: 0 <= k < |b| ==> (a + b + c)[|a| + k] == b[k];
  }

  predicate AllDigits(ds: seq<Byte>) {
    forall k :: 0 <= k < |ds| ==> IsDigit(ds[k])
  }

  /** A run of digits found in place inside s, followed by a non-digit, is
      read as its value. */
  lemma ReadDigitsIn(s: seq<Byte>, i: nat, ds: seq<Byte>)
    requires |ds| > 0 && AllDigits(ds) && i + |ds| < |s| && !IsDigit(s[i + |ds|])
    requires forall k :: 0 <= k < |ds| ==> s[i + k] == ds[k]
    ensures ReadNumber(s, i) == Some((Value(ds), i + |ds|))
  {
    assert forall k :: i <= k < i + |ds| ==> s[k] == ds[k - i];
    RunLength(s, i, |ds|);
    assert s[i..i + |ds|] == ds;
  }

  /** The header save_ppm writes is read back whatever follows it. */
  lemma {:induction false} HeaderRoundTrip(w: nat, h: nat, rest: seq<Byte>)
    ensures ReadHeader(Header(w, h) + rest) == Some((w, h, |Header(w, h)|))
  {
    ValueDecimal(w);
    ValueDecimal(h);
    HeaderFields(Decimal(w), Decimal(h), rest);
  }

  /** The header layout with any two digit runs for width and height. */
  lemma {:induction false} HeaderFields(dw: seq<Byte>, dh: seq<Byte>, rest: seq<Byte>)
    requires |dw| > 0 && AllDigits(dw) && |dh| > 0 && AllDigits(dh)
    ensures ReadHeader(Magic + dw + [Space] + dh + MaxLine + rest)
      == Some((Value(dw), Value(dh), |Magic + dw + [Space] + dh + MaxLine|))
  {
    var s := Magic + dw + [Space] + dh + MaxLine + rest;
    var i, j := 3 + |dw|, 4 + |dw| + |dh|;
    ReadDigitsIn(s, 3, dw);
    ReadDigitsIn(s, i + 1, dh);
    ReadHeaderFields(s, Value(dw), Value(dh), i, j);
  }

  /** Reading back what save_ppm wrote gives the frame again, except that
      every pixel comes back opaque: the file keeps red, green and blue and
      drops alpha. */
  lemma RoundTrip(f: Frame)
    requires f.Valid()
    ensures ReadPpm(SavePpm(f)) == Some(Frame(f.width, f.height, seq(|f.pixels|, i requires 0 <= i < |f.pixels| => OpaqueOf(f.pixels[i]))))
  {
    var w, h := f.width, f.height;
    var s := SavePpm(f);
    var b := |Header(w, h)|;
    HeaderRoundTrip(w, h, Body(f.pixels));
    var got := seq(w * h, k requires 0 <= k < w * h => PixelAt(s, b + 3 * k));
    var want := seq(|f.pixels|, k requires 0 <= k < |f.pixels| => OpaqueOf(f.pixels[k]));
    forall k | 0 <= k < w * h
      ensures got[k] == want[k]
    {
      SavePpmPixel(f, k);
    }
    assert got == want;
  }

  /** A frame of opaque pixels, such as a fresh buffer, survives the round
      trip unchanged. */
  lemma RoundTripOpaque(f: Frame)
    requires f.Valid() && forall i :: 0 <= i < |f.pixels| ==> Opaque(f.pixels[i])
    ensures ReadPpm(SavePpm(f)) == Some(f)
  {
    RoundTrip(f);
    var want := seq(|f.pixels|, i requires 0 <= i < |f.pixels| => OpaqueOf(f.pixels[i]));
    forall i | 0 <= i < |f.pixels|
      ensures want[i] == f.pixels[i]
    {
      PackUnpack(f.pixels[i]);
    }
    assert want == f.pixels;
  }
}
