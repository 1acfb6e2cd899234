/** The Rust loops that turn what the external decoders hand back into the
    canonical RGBA buffer (src/image_loader.rs): libtiff's packed ABGR words,
    cairo's premultiplied BGRA surface, and the choice of the JPEG DCT scaling
    factor for thumbnails. The codecs themselves are not part of this model. */
module Conversions {
  import opened Base
  import opened Grid
  import opened Pixels

  // ---------------------------------------------------------------------
  // TIFF: ABGR words, red in the lowest byte
  // ---------------------------------------------------------------------

  /** The bytes of a 32-bit word, lowest first: R, G, B, A for libtiff's ABGR. */
  function WordBytes(word: nat): (px: seq<Byte>)
    requires word < U32_LIMIT
    ensures |px| == 4
  {
    [word % 256, (word / 0x100) % 256, (word / 0x1_0000) % 256, (word / 0x100_0000) % 256]
  }

  /** The word whose bytes, lowest first, are `px`. */
  function PackWord(px: seq<Byte>): (word: nat)
    requires |px| == 4
    ensures word < U32_LIMIT
  {
    px[0] as int + 0x100 * px[1] as int + 0x1_0000 * px[2] as int + 0x100_0000 * px[3] as int
  }

  /** Splitting a word into bytes and packing them again gives the word back,
      and the other way round: the conversion loses nothing. */
  lemma WordBytesRoundTrip(word: nat, px: seq<Byte>)
    requires word < U32_LIMIT && |px| == 4
    ensures PackWord(WordBytes(word)) == word
    ensures WordBytes(PackWord(px)) == px
  {
    SplitWord(word);
    BytesOfPack(px);
  }

  /** A 32-bit word is its low byte plus 256 times the rest, three times over. */
  lemma SplitWord(word: nat)
    requires word < U32_LIMIT
    ensures var q1, q2, q3 := word / 0x100, word / 0x1_0000, word / 0x100_0000;
      word == word % 0x100 + 0x100 * q1 && q1 == q1 % 0x100 + 0x100 * q2 &&
      q2 == q2 % 0x100 + 0x100 * q3 && q3 < 0x100
  {
    var q1 := word / 0x100;
    var q2 := q1 / 0x100;
    var q3 := q2 / 0x100;
    DivMod(word, 0x1_0000, q2, 0x100 * (q1 % 0x100) + word % 0x100);
    DivMod(word, 0x100_0000, q3, 0x1_0000 * (q2 % 0x100) + 0x100 * (q1 % 0x100) + word % 0x100);
  }

  /** Packing four bytes and taking the word apart again gives the bytes. */
  lemma BytesOfPack(px: seq<Byte>)
    requires |px| == 4
    ensures WordBytes(PackWord(px)) == px
  {
    var w := PackWord(px);
    var b0, b1, b2, b3 := px[0] as int, px[1] as int, px[2] as int, px[3] as int;
    DivMod(w, 0x100, b1 + 0x100 * b2 + 0x1_0000 * b3, b0);
    DivMod(w / 0x100, 0x100, b2 + 0x100 * b3, b1);
    DivMod(w, 0x1_0000, b2 + 0x100 * b3, b0 + 0x100 * b1);
    DivMod(w / 0x1_0000, 0x100, b3, b2);
    DivMod(w, 0x100_0000, b3, b0 + 0x100 * b1 + 0x1_0000 * b2);
  }

  /** The ABGR-to-RGBA push loop after `TIFFReadRGBAImageOriented`. */
  method AbgrToRgba(raster: seq<nat>) returns (rgba: seq<Byte>)
    requires forall i :: 0 <= i < |raster| ==> raster[i] < U32_LIMIT
    ensures |rgba| == 4 * |raster|
    ensures forall i :: 0 <= i < |raster| ==> PackWord(Pixel(rgba, i)) == raster[i]
  {
    rgba := [];
    var i := 0;
    while i < |raster|
      invariant 0 <= i <= |raster|
      invariant |rgba| == 4 * i
      invariant forall j :: 0 <= j < i ==> Pixel(rgba, j) == WordBytes(raster[j])
    {
      var pixel := raster[i];
      ghost var prev := rgba;
      rgba := rgba + [pixel % 256];
      rgba := rgba + [(pixel / 0x100) % 256];
      rgba := rgba + [(pixel / 0x1_0000) % 256];
      rgba := rgba + [(pixel / 0x100_0000) % 256];
      assert forall j :: 0 <= j < i ==> Pixel(rgba, j) == Pixel(prev, j);
      assert Pixel(rgba, i) == WordBytes(pixel);
      i := i + 1;
    }
    forall j | 0 <= j < |raster|
      ensures PackWord(Pixel(rgba, j)) == raster[j]
    {
      WordBytesRoundTrip(raster[j], Pixel(rgba, j));
    }
  }

  // ---------------------------------------------------------------------
  // SVG: cairo's premultiplied B, G, R, A bytes to straight RGBA
  // ---------------------------------------------------------------------

  /** One colour channel divided by alpha, rounded to nearest and capped at 255
      (`(c * 255 + a / 2) / a` in `u16`, then `min(255)`). */
  function Unpremultiply(c: Byte, a: Byte): (u: Byte)
    requires 0 < a
  {
    var q := (c as int * 255 + a as int / 2) / a as int;
    if q > 255 then 255 else q
  }

  /** The straight RGBA value of one stored B, G, R, A pixel. */
  function StraightPixel(b: Byte, g: Byte, r: Byte, a: Byte): (px: seq<Byte>)
    ensures |px| == 4 && px[3] == a
    ensures a == 0 ==> px == [0, 0, 0, 0]
    ensures a == 255 ==> px == [r, g, b, 255]
    ensures 0 < a < 255 ==> px == [Unpremultiply(r, a), Unpremultiply(g, a), Unpremultiply(b, a), a]
  {
    if a == 0 then [0, 0, 0, 0]
    else if a == 255 then [r, g, b, a]
    else [Unpremultiply(r, a), Unpremultiply(g, a), Unpremultiply(b, a), a]
  }

  /** The reference premultiplication: channel times alpha over 255, rounded
      to nearest. */
  function Premultiply(u: Byte, a: Byte): (c: nat)
  {
    (u * a + 127) / 255
  }

  /** For every channel a premultiplied surface can hold (`c <= a`),
      un-premultiplying and premultiplying again restores the stored value. */
  lemma UnpremultiplyRoundTrip(c: Byte, a: Byte)
    requires 0 < a && c <= a
    ensures Unpremultiply(c, a) == (c * 255 + a / 2) / a
    ensures Premultiply(Unpremultiply(c, a), a) == c
  {
    var q := (c * 255 + a / 2) / a;
    var rem := (c * 255 + a / 2) % a;
    assert q * a + rem == c * 255 + a / 2;
    assert 0 <= rem < a;
    if q > 255 {
      MulLeMul(256, q, a);
      assert false;
    }
    var e := q * a - c * 255;
    assert -127 <= e + 127 - 127 && e + 127 < 255;
    assert q * a + 127 == 255 * c + (e + 127);
  }

  /** A pixel a premultiplied surface can hold (every colour channel at most
      alpha) comes back from the straight pixel by premultiplying again. */
  lemma StraightPixelRoundTrip(b: Byte, g: Byte, r: Byte, a: Byte)
    requires 0 < a && r <= a && g <= a && b <= a
    ensures var px := StraightPixel(b, g, r, a);
      Premultiply(px[0], a) == r && Premultiply(px[1], a) == g && Premultiply(px[2], a) == b && px[3] == a
  {
    if a == 255 {
      assert Premultiply(r, 255) == r && Premultiply(g, 255) == g && Premultiply(b, 255) == b;
    } else {
      UnpremultiplyRoundTrip(r, a);
      UnpremultiplyRoundTrip(g, a);
      UnpremultiplyRoundTrip(b, a);
    }
  }

  /** The un-premultiply loop: `height` rows of `width` pixels, each row
      starting `stride` bytes after the previous one. */
  method UnpremultiplySurface(surface: seq<Byte>, stride: nat, width: nat, height: nat) returns (rgba: seq<Byte>)
    requires 4 * width <= stride && height * stride <= |surface|
    ensures |rgba| == 4 * (height * width)
    ensures forall x: nat, y: nat :: x < width && y < height ==>
      SurfaceOffsetOk(surface, stride, width, height, x, y) &&
      4 * Index(width, x, y) + 4 <= |rgba| &&
      Pixel(rgba, Index(width, x, y)) == SurfacePixel(surface, stride, width, height, x, y)
  {
    rgba := [];
    var y := 0;
    while y < height
      invariant 0 <= y <= height
      invariant |rgba| == 4 * (y * width)
      invariant forall yy: nat, xx: nat :: yy < y && xx < width ==>
        SurfaceOffsetOk(surface, stride, width, height, xx, yy) &&
        4 * Index(width, xx, yy) + 4 <= |rgba| &&
        Pixel(rgba, Index(width, xx, yy)) == SurfacePixel(surface, stride, width, height, xx, yy)
    {
      var row := UnpremultiplyRow(surface, stride, width, height, y);
      ghost var prev := rgba;
      rgba := rgba + row;
      PushKeepsPixels(prev, rgba);
      forall xx: nat | xx < width
        ensures Pixel(rgba, Index(width, xx, y)) == SurfacePixel(surface, stride, width, height, xx, y)
      {
        AppendedPixel(prev, row, xx);
      }
      assert (y + 1) * width == y * width + width;
      y := y + 1;
    }
  }

  /** The inner loop: the straight RGBA bytes of row `y` of the surface. */
  method UnpremultiplyRow(surface: seq<Byte>, stride: nat, width: nat, height: nat, y: nat) returns (row: seq<Byte>)
    requires 4 * width <= stride && height * stride <= |surface| && y < height
    ensures |row| == 4 * width
    ensures forall xx: nat :: xx < width ==>
      SurfaceOffsetOk(surface, stride, width, height, xx, y) &&
      Pixel(row, xx) == SurfacePixel(surface, stride, width, height, xx, y)
  {
    var base := y * stride;
    row := [];
    var x := 0;
    while x < width
      invariant 0 <= x <= width
      invariant row == StraightRow(surface, stride, width, height, y, x)
    {
      SurfaceOffsetBound(surface, stride, width, height, x, y);
      var px := base + x * 4;
      var straight := StraightPixel(surface[px], surface[px + 1], surface[px + 2], surface[px + 3]);
      row := row + straight;
      x := x + 1;
    }
    StraightRowPixels(surface, stride, width, height, y, width);
  }

  /** The first `n` pixels of row `y` of the surface, converted to straight RGBA. */
  function StraightRow(surface: seq<Byte>, stride: nat, width: nat, height: nat, y: nat, n: nat): (r: seq<Byte>)
    requires 4 * width <= stride && height * stride <= |surface| && y < height && n <= width
    ensures |r| == 4 * n
  {
    if n == 0 then []
    else
      SurfaceOffsetBound(surface, stride, width, height, n - 1, y);
      StraightRow(surface, stride, width, height, y, n - 1) + SurfacePixel(surface, stride, width, height, n - 1, y)
  }

  /** Pixel `xx` of the converted row is the conversion of surface pixel (xx, y). */
  lemma {:induction false} StraightRowPixels(surface: seq<Byte>, stride: nat, width: nat, height: nat, y: nat, n: nat)
    requires 4 * width <= stride && height * stride <= |surface| && y < height && n <= width
    ensures forall xx: nat :: xx < n ==>
      SurfaceOffsetOk(surface, stride, width, height, xx, y) &&
      Pixel(StraightRow(surface, stride, width, height, y, n), xx) == SurfacePixel(surface, stride, width, height, xx, y)
  {
    if n > 0 {
      var prev := StraightRow(surface, stride, width, height, y, n - 1);
      SurfaceOffsetBound(surface, stride, width, height, n - 1, y);
      var last := SurfacePixel(surface, stride, width, height, n - 1, y);
      var r := StraightRow(surface, stride, width, height, y, n);
      assert r == prev + last;
      StraightRowPixels(surface, stride, width, height, y, n - 1);
      DivMod(|prev|, 4, n - 1, 0);
      AppendedPixel(prev, last, 0);
      assert Pixel(last, 0) == last;
      forall xx: nat | xx < n - 1
        ensures Pixel(r, xx) == Pixel(prev, xx)
      {
        assert r[4 * xx .. 4 * xx + 4] == prev[4 * xx .. 4 * xx + 4];
      }
    }
  }

  /** Pixel `q` of a row appended after `prev` is pixel `|prev| / 4 + q` of the result. */
  lemma AppendedPixel(prev: seq<Byte>, row: seq<Byte>, q: nat)
    requires |prev| % 4 == 0 && 4 * q + 4 <= |row|
    ensures Pixel(prev + row, |prev| / 4 + q) == Pixel(row, q)
  {
    assert (prev + row)[|prev| + 4 * q .. |prev| + 4 * q + 4] == row[4 * q .. 4 * q + 4];
  }

  /** Appending to a buffer keeps the pixels already in it. */
  lemma PushKeepsPixels(prev: seq<Byte>, next: seq<Byte>)
    requires |prev| <= |next| && next[..|prev|] == prev
    ensures forall q: nat :: 4 * q + 4 <= |prev| ==> Pixel(next, q) == Pixel(prev, q)
  {
    forall q: nat | 4 * q + 4 <= |prev|
      ensures Pixel(next, q) == Pixel(prev, q)
    {
      assert next[4 * q .. 4 * q + 4] == next[..|prev|][4 * q .. 4 * q + 4];
    }
  }

  /** Pixel (x, y) of the surface lies inside it. */
  predicate SurfaceOffsetOk(surface: seq<Byte>, stride: nat, width: nat, height: nat, x: nat, y: nat)
  {
    y * stride + x * 4 + 4 <= |surface|
  }

  lemma SurfaceOffsetBound(surface: seq<Byte>, stride: nat, width: nat, height: nat, x: nat, y: nat)
    requires 4 * width <= stride && height * stride <= |surface| && x < width && y < height
    ensures SurfaceOffsetOk(surface, stride, width, height, x, y)
  {
    MulLeMul(y + 1, height, stride);
  }

  /** The straight RGBA value of surface pixel (x, y). */
  function SurfacePixel(surface: seq<Byte>, stride: nat, width: nat, height: nat, x: nat, y: nat): (px: seq<Byte>)
    requires SurfaceOffsetOk(surface, stride, width, height, x, y)
    ensures |px| == 4
  {
    var o := y * stride + x * 4;
    StraightPixel(surface[o], surface[o + 1], surface[o + 2], surface[o + 3])
  }

  // ---------------------------------------------------------------------
  // JPEG: the DCT scaling factor for thumbnails
  // ---------------------------------------------------------------------

  /** A scaling factor num/den, as libjpeg-turbo offers them. */
  datatype Scale = Scale(num: nat, den: nat)

  /** The factors tried, smallest first. */
  const SCALES: seq<Scale> := [Scale(1, 8), Scale(1, 4), Scale(1, 2), Scale(1, 1)]

  /** A dimension after scaling, rounded up (libjpeg-turbo's `TJSCALED`). */
  function Scaled(dim: nat, s: Scale): nat
    requires s.den > 0
  {
    (dim * s.num + s.den - 1) / s.den
  }

  /** Decoding at factor `s` still gives at least `thumb` pixels each way. */
  predicate BigEnough(width: nat, height: nat, thumb: nat, s: Scale)
    requires s.den > 0
  {
    Scaled(width, s) >= thumb && Scaled(height, s) >= thumb
  }

  /** The scale pick of `load_jpeg_thumbnail`: the first listed factor that is
      big enough, else full size. */
  method PickScale(width: nat, height: nat, thumb: nat) returns (best: Scale)
    ensures best in SCALES
    ensures forall k :: 0 <= k < |SCALES| && SCALES[k] == best ==>
      forall j :: 0 <= j < k ==> !BigEnough(width, height, thumb, SCALES[j])
    ensures best != Scale(1, 1) ==> BigEnough(width, height, thumb, best)
    ensures (exists k :: 0 <= k < |SCALES| && BigEnough(width, height, thumb, SCALES[k])) ==> BigEnough(width, height, thumb, best)
  {
    best := Scale(1, 1);
    var i := 0;
    while i < |SCALES|
      invariant 0 <= i <= |SCALES|
      invariant forall j :: 0 <= j < i ==> !BigEnough(width, height, thumb, SCALES[j])
      invariant best == Scale(1, 1)
    {
      var sf := SCALES[i];
      if Scaled(width, sf) >= thumb && Scaled(height, sf) >= thumb {
        best := sf;
        return;
      }
      i := i + 1;
    }
  }

  /** The listed factors grow, so the first big-enough one is the smallest
      big-enough one: the thumbnail is decoded at the lowest usable resolution. */
  lemma ScaledMonotone(dim: nat, j: nat, k: nat)
    requires j <= k < |SCALES|
    ensures Scaled(dim, SCALES[j]) <= Scaled(dim, SCALES[k])
  {
    assert Scaled(dim, SCALES[0]) == (dim + 7) / 8;
    assert Scaled(dim, SCALES[1]) == (dim + 3) / 4;
    assert Scaled(dim, SCALES[2]) == (dim + 1) / 2;
    assert Scaled(dim, SCALES[3]) == dim;
  }
}
