/** The eight EXIF/TIFF orientation corrections (Orientation tag 274, TIFF 6.0
    section 8): rotations by 90, 180 and 270 degrees and horizontal and
    vertical flips of an RGBA buffer, each a pixel-by-pixel copy into a fresh
    buffer (src/image_loader.rs). Each transform is specified by the relation
    it establishes between the pixels of its input and its output. */
module Orientation {
  import opened Base
  import opened Grid
  import opened Pixels

  /** The transforms compute byte offsets in `u32`; this keeps them exact. */
  predicate Transformable(img: RgbaImage)
  {
    Wf(img) && |img.data| < U32_LIMIT
  }

  // ---------------------------------------------------------------------
  // The relations
  // ---------------------------------------------------------------------

  /** `out` mirrors `img` left to right: (x, y) goes to (w-1-x, y). */
  ghost predicate IsFlipH(img: RgbaImage, out: RgbaImage)
    requires Wf(img)
  {
    Wf(out) && out.width == img.width && out.height == img.height &&
    forall x: nat, y: nat :: x < img.width && y < img.height ==>
      PixelAt(out, img.width - 1 - x, y) == PixelAt(img, x, y)
  }

  /** `out` mirrors `img` top to bottom: (x, y) goes to (x, h-1-y). */
  ghost predicate IsFlipV(img: RgbaImage, out: RgbaImage)
    requires Wf(img)
  {
    Wf(out) && out.width == img.width && out.height == img.height &&
    forall x: nat, y: nat :: x < img.width && y < img.height ==>
      PixelAt(out, x, img.height - 1 - y) == PixelAt(img, x, y)
  }

  /** Half a turn: (x, y) goes to (w-1-x, h-1-y). */
  ghost predicate IsRotate180(img: RgbaImage, out: RgbaImage)
    requires Wf(img)
  {
    Wf(out) && out.width == img.width && out.height == img.height &&
    forall x: nat, y: nat :: x < img.width && y < img.height ==>
      PixelAt(out, img.width - 1 - x, img.height - 1 - y) == PixelAt(img, x, y)
  }

  /** A quarter turn clockwise: the output is h wide and w high and
      (x, y) goes to (h-1-y, x). */
  ghost predicate IsRotate90(img: RgbaImage, out: RgbaImage)
    requires Wf(img)
  {
    Wf(out) && out.width == img.height && out.height == img.width &&
    forall x: nat, y: nat :: x < img.width && y < img.height ==>
      PixelAt(out, img.height - 1 - y, x) == PixelAt(img, x, y)
  }

  /** A quarter turn counter-clockwise: the output is h wide and w high and
      (x, y) goes to (y, w-1-x). */
  ghost predicate IsRotate270(img: RgbaImage, out: RgbaImage)
    requires Wf(img)
  {
    Wf(out) && out.width == img.height && out.height == img.width &&
    forall x: nat, y: nat :: x < img.width && y < img.height ==>
      PixelAt(out, y, img.width - 1 - x) == PixelAt(img, x, y)
  }

  /** Orientation 5: mirror along the main diagonal, (x, y) goes to (y, x). */
  ghost predicate IsTranspose(img: RgbaImage, out: RgbaImage)
    requires Wf(img)
  {
    Wf(out) && out.width == img.height && out.height == img.width &&
    forall x: nat, y: nat :: x < img.width && y < img.height ==>
      PixelAt(out, y, x) == PixelAt(img, x, y)
  }

  /** Orientation 7: mirror along the anti-diagonal, (x, y) goes to (h-1-y, w-1-x). */
  ghost predicate IsTransverse(img: RgbaImage, out: RgbaImage)
    requires Wf(img)
  {
    Wf(out) && out.width == img.height && out.height == img.width &&
    forall x: nat, y: nat :: x < img.width && y < img.height ==>
      PixelAt(out, img.height - 1 - y, img.width - 1 - x) == PixelAt(img, x, y)
  }

  // ---------------------------------------------------------------------
  // The copy loops
  // ---------------------------------------------------------------------

  /** `flip_h`. */
  method FlipH(img: RgbaImage) returns (out: RgbaImage)
    requires Transformable(img)
    ensures IsFlipH(img, out)
  {
    var w, h := img.width, img.height;
    var buf := new Byte[w * h * 4](_ => 0);
    var y := 0;
    while y < h
      invariant 0 <= y <= h
      invariant Wf(RgbaImage(buf[..], w, h))
      invariant forall xd: nat, yd: nat :: xd < w && yd < y ==>
        PixelAt(RgbaImage(buf[..], w, h), xd, yd) == PixelAt(img, w - 1 - xd, yd)
    {
      FlipHRow(buf, img, y);
      y := y + 1;
    }
    out := RgbaImage(buf[..], w, h);
    forall x: nat, y: nat | x < w && y < h
      ensures PixelAt(out, w - 1 - x, y) == PixelAt(img, x, y)
    {
      assert PixelAt(out, w - 1 - x, y) == PixelAt(img, w - 1 - (w - 1 - x), y);
    }
  }

  /** The inner loop of `flip_h`: row `y` of `img`, mirrored, into row `y` of `buf`; the rest of `buf` keeps its value. */
  method FlipHRow(buf: array<Byte>, img: RgbaImage, y: nat)
    requires Transformable(img) && y < img.height
    requires Wf(RgbaImage(buf[..], img.width, img.height))
    modifies buf
    ensures Wf(RgbaImage(buf[..], img.width, img.height))
    ensures forall xd: nat :: xd < img.width ==>
      PixelAt(RgbaImage(buf[..], img.width, img.height), xd, y) == PixelAt(img, img.width - 1 - xd, y)
    ensures forall xd: nat, yd: nat :: xd < img.width && yd < img.height && yd != y ==>
      PixelAt(RgbaImage(buf[..], img.width, img.height), xd, yd) == PixelAt(RgbaImage(old(buf[..]), img.width, img.height), xd, yd)
  {
    var w, h := img.width, img.height;
    var x := 0;
    while x < w
      invariant 0 <= x <= w
      invariant Wf(RgbaImage(buf[..], w, h))
      invariant forall xd: nat :: w - x <= xd < w ==>
        PixelAt(RgbaImage(buf[..], w, h), xd, y) == PixelAt(img, w - 1 - xd, y)
      invariant forall xd: nat, yd: nat :: xd < w && yd < h && yd != y ==>
        PixelAt(RgbaImage(buf[..], w, h), xd, yd) == PixelAt(RgbaImage(old(buf[..]), w, h), xd, yd)
    {
      SetPixel(buf, w, h, w - 1 - x, y, PixelAt(img, x, y));
      x := x + 1;
    }
  }

  /** `flip_v`: whole rows are copied, row y to row h-1-y. */
  method FlipV(img: RgbaImage) returns (out: RgbaImage)
    requires Transformable(img)
    ensures IsFlipV(img, out)
  {
    var w, h := img.width, img.height;
    var buf := new Byte[w * h * 4](_ => 0);
    var y := 0;
    while y < h
      invariant 0 <= y <= h
      invariant Wf(RgbaImage(buf[..], w, h))
      invariant forall yy: nat, xx: nat :: yy < y && xx < w ==>
        PixelAt(RgbaImage(buf[..], w, h), xx, h - 1 - yy) == PixelAt(img, xx, yy)
    {
      CopyRow(buf, w, h, h - 1 - y, img, y);
      y := y + 1;
    }
    out := RgbaImage(buf[..], w, h);
  }

  /** Copies row `sy` of `img` over row `dy` of `buf` (the same width) in one
      slice copy; every other row of `buf` keeps its value. */
  method CopyRow(buf: array<Byte>, w: nat, h: nat, dy: nat, img: RgbaImage, sy: nat)
    requires Wf(img) && img.width == w && sy < img.height
    requires Wf(RgbaImage(buf[..], w, h)) && dy < h
    modifies buf
    ensures Wf(RgbaImage(buf[..], w, h))
    ensures forall x: nat :: x < w ==> PixelAt(RgbaImage(buf[..], w, h), x, dy) == PixelAt(img, x, sy)
    ensures forall x: nat, y: nat :: x < w && y < h && y != dy ==>
      PixelAt(RgbaImage(buf[..], w, h), x, y) == PixelAt(RgbaImage(old(buf[..]), w, h), x, y)
  {
    if w == 0 { return; }
    RowBound(w, h, dy);
    RowBound(w, img.height, sy);
    var dstRow, srcRow, rowBytes := dy * w * 4, sy * w * 4, w * 4;
    forall i | 0 <= i < rowBytes {
      buf[dstRow + i] := img.data[srcRow + i];
    }
    assert buf[..][dstRow .. dstRow + rowBytes] == img.data[srcRow .. srcRow + rowBytes];
    assert buf[..][..dstRow] == old(buf[..])[..dstRow];
    assert buf[..][dstRow + rowBytes..] == old(buf[..])[dstRow + rowBytes..];
    RowCopied(old(buf[..]), buf[..], w, h, dy, img, sy, dstRow, srcRow, rowBytes);
  }

  /** What a slice copy of one row does to the pixels of the buffer. */
  lemma RowCopied(before: seq<Byte>, after: seq<Byte>, w: nat, h: nat, dy: nat, img: RgbaImage, sy: nat,
                  dstRow: nat, srcRow: nat, rowBytes: nat)
    requires Wf(img) && img.width == w && sy < img.height
    requires Wf(RgbaImage(before, w, h)) && |after| == |before| && dy < h
    requires dstRow == dy * w * 4 && srcRow == sy * w * 4 && rowBytes == w * 4
    requires dstRow + rowBytes <= |before| && srcRow + rowBytes <= |img.data|
    requires after[dstRow .. dstRow + rowBytes] == img.data[srcRow .. srcRow + rowBytes]
    requires after[..dstRow] == before[..dstRow]
    requires after[dstRow + rowBytes..] == before[dstRow + rowBytes..]
    ensures forall x: nat :: x < w ==> PixelAt(RgbaImage(after, w, h), x, dy) == PixelAt(img, x, sy)
    ensures forall x: nat, y: nat :: x < w && y < h && y != dy ==>
      PixelAt(RgbaImage(after, w, h), x, y) == PixelAt(RgbaImage(before, w, h), x, y)
  {
    forall x: nat | x < w
      ensures PixelAt(RgbaImage(after, w, h), x, dy) == PixelAt(img, x, sy)
    {
      CopiedRowPixel(before, after, w, h, dy, img, sy, dstRow, srcRow, rowBytes, x);
    }
    forall x: nat, y: nat | x < w && y < h && y != dy
      ensures PixelAt(RgbaImage(after, w, h), x, y) == PixelAt(RgbaImage(before, w, h), x, y)
    {
      OtherRowPixel(before, after, w, h, dy, dstRow, rowBytes, x, y);
    }
  }

  lemma CopiedRowPixel(before: seq<Byte>, after: seq<Byte>, w: nat, h: nat, dy: nat, img: RgbaImage, sy: nat,
                       dstRow: nat, srcRow: nat, rowBytes: nat, x: nat)
    requires Wf(img) && img.width == w && sy < img.height
    requires Wf(RgbaImage(before, w, h)) && |after| == |before| && dy < h && x < w
    requires dstRow == dy * w * 4 && srcRow == sy * w * 4 && rowBytes == w * 4
    requires dstRow + rowBytes <= |before| && srcRow + rowBytes <= |img.data|
    requires after[dstRow .. dstRow + rowBytes] == img.data[srcRow .. srcRow + rowBytes]
    ensures PixelAt(RgbaImage(after, w, h), x, dy) == PixelAt(img, x, sy)
  {
    ByteOffset(w, x, dy);
    ByteOffset(w, x, sy);
    SliceWithin(after, img.data, dstRow, srcRow, rowBytes, 4 * x);
  }

  /** Equal slices agree on every four-byte window inside them. */
  lemma SliceWithin(a: seq<Byte>, b: seq<Byte>, d: nat, s: nat, n: nat, k: nat)
    requires d + n <= |a| && s + n <= |b| && k + 4 <= n
    requires a[d .. d + n] == b[s .. s + n]
    ensures a[d + k .. d + k + 4] == b[s + k .. s + k + 4]
  {
    var wa, wb := a[d + k .. d + k + 4], b[s + k .. s + k + 4];
    forall i | 0 <= i < 4
      ensures wa[i] == wb[i]
    {
      assert a[d + k + i] == a[d .. d + n][k + i];
      assert b[s + k + i] == b[s .. s + n][k + i];
    }
  }

  lemma OtherRowPixel(before: seq<Byte>, after: seq<Byte>, w: nat, h: nat, dy: nat,
                      dstRow: nat, rowBytes: nat, x: nat, y: nat)
    requires Wf(RgbaImage(before, w, h)) && |after| == |before| && dy < h
    requires x < w && y < h && y != dy
    requires dstRow == dy * w * 4 && rowBytes == w * 4 && dstRow + rowBytes <= |before|
    requires after[..dstRow] == before[..dstRow]
    requires after[dstRow + rowBytes..] == before[dstRow + rowBytes..]
    ensures PixelAt(RgbaImage(after, w, h), x, y) == PixelAt(RgbaImage(before, w, h), x, y)
  {
    var p := Index(w, x, y);
    IndexBound(w, h, x, y);
    OtherRowDisjoint(w, x, y, dy);
    if 4 * p + 4 <= dstRow {
      assert after[4 * p .. 4 * p + 4] == after[..dstRow][4 * p .. 4 * p + 4];
      assert before[4 * p .. 4 * p + 4] == before[..dstRow][4 * p .. 4 * p + 4];
    } else {
      var q := 4 * p - (dstRow + rowBytes);
      assert after[4 * p .. 4 * p + 4] == after[dstRow + rowBytes..][q .. q + 4];
      assert before[4 * p .. 4 * p + 4] == before[dstRow + rowBytes..][q .. q + 4];
    }
  }

  /** A pixel outside row `dy` lies wholly before or wholly after that row's bytes. */
  lemma OtherRowDisjoint(w: nat, x: nat, y: nat, dy: nat)
    requires x < w && y != dy
    ensures 4 * Index(w, x, y) + 4 <= dy * w * 4 || dy * w * 4 + w * 4 <= 4 * Index(w, x, y)
  {
    if y < dy {
      MulLeMul(y + 1, dy, w);
    } else {
      MulLeMul(dy + 1, y, w);
    }
  }

  /** `rotate_180`. */
  method Rotate180(img: RgbaImage) returns (out: RgbaImage)
    requires Transformable(img)
    ensures IsRotate180(img, out)
  {
    var w, h := img.width, img.height;
    var buf := new Byte[w * h * 4](_ => 0);
    var y := 0;
    while y < h
      invariant 0 <= y <= h
      invariant Wf(RgbaImage(buf[..], w, h))
      invariant forall xd: nat, yd: nat :: xd < w && h - y <= yd < h ==>
        PixelAt(RgbaImage(buf[..], w, h), xd, yd) == PixelAt(img, w - 1 - xd, h - 1 - yd)
    {
      Rotate180Row(buf, img, y);
      y := y + 1;
    }
    out := RgbaImage(buf[..], w, h);
    forall x: nat, y: nat | x < w && y < h
      ensures PixelAt(out, w - 1 - x, h - 1 - y) == PixelAt(img, x, y)
    {
      assert PixelAt(out, w - 1 - x, h - 1 - y) == PixelAt(img, w - 1 - (w - 1 - x), h - 1 - (h - 1 - y));
    }
  }

  /** The inner loop of `rotate_180`: row `y` of `img`, mirrored, into row `h-1-y` of `buf`; the rest of `buf` keeps its value. */
  method Rotate180Row(buf: array<Byte>, img: RgbaImage, y: nat)
    requires Transformable(img) && y < img.height
    requires Wf(RgbaImage(buf[..], img.width, img.height))
    modifies buf
    ensures Wf(RgbaImage(buf[..], img.width, img.height))
    ensures forall xd: nat, yd: nat :: xd < img.width && yd + y + 1 == img.height ==>
      PixelAt(RgbaImage(buf[..], img.width, img.height), xd, yd) == PixelAt(img, img.width - 1 - xd, y)
    ensures forall xd: nat, yd: nat :: xd < img.width && yd < img.height && yd != img.height - 1 - y ==>
      PixelAt(RgbaImage(buf[..], img.width, img.height), xd, yd) == PixelAt(RgbaImage(old(buf[..]), img.width, img.height), xd, yd)
  {
    var w, h := img.width, img.height;
    var dy := h - 1 - y;
    var x := 0;
    while x < w
      invariant 0 <= x <= w
      invariant Wf(RgbaImage(buf[..], w, h))
      invariant forall xd: nat :: w - x <= xd < w ==>
        PixelAt(RgbaImage(buf[..], w, h), xd, dy) == PixelAt(img, w - 1 - xd, y)
      invariant forall xd: nat, yd: nat :: xd < w && yd < h && yd != dy ==>
        PixelAt(RgbaImage(buf[..], w, h), xd, yd) == PixelAt(RgbaImage(old(buf[..]), w, h), xd, yd)
    {
      SetPixel(buf, w, h, w - 1 - x, dy, PixelAt(img, x, y));
      x := x + 1;
    }
  }

  /** `rotate_90`: the output buffer is `h` wide and `w` high. */
  method Rotate90(img: RgbaImage) returns (out: RgbaImage)
    requires Transformable(img)
    ensures IsRotate90(img, out)
  {
    var w, h := img.width, img.height;
    assert h * w == w * h;
    var buf := new Byte[h * w * 4](_ => 0);
    var y := 0;
    while y < h
      invariant 0 <= y <= h
      invariant Wf(RgbaImage(buf[..], h, w))
      invariant forall yy: nat, xx: nat :: yy < y && xx < w ==>
        PixelAt(RgbaImage(buf[..], h, w), h - 1 - yy, xx) == PixelAt(img, xx, yy)
    {
      Rotate90Row(buf, img, y);
      y := y + 1;
    }
    out := RgbaImage(buf[..], h, w);
  }

  /** The inner loop of `rotate_90`: row `y` of `img` into column `h-1-y` of `buf`; the rest of `buf` keeps its value. */
  method Rotate90Row(buf: array<Byte>, img: RgbaImage, y: nat)
    requires Transformable(img) && y < img.height
    requires Wf(RgbaImage(buf[..], img.height, img.width))
    modifies buf
    ensures Wf(RgbaImage(buf[..], img.height, img.width))
    ensures forall xx: nat :: xx < img.width ==>
      PixelAt(RgbaImage(buf[..], img.height, img.width), img.height - 1 - y, xx) == PixelAt(img, xx, y)
    ensures forall x': nat, yy': nat :: x' < img.height && yy' < img.width && x' != img.height - 1 - y ==>
        PixelAt(RgbaImage(buf[..], img.height, img.width), x', yy') == PixelAt(RgbaImage(old(buf[..]), img.height, img.width), x', yy')
  {
    var w, h := img.width, img.height;
    var x := 0;
    while x < w
      invariant 0 <= x <= w
      invariant Wf(RgbaImage(buf[..], h, w))
      invariant forall xx: nat :: xx < x ==>
        PixelAt(RgbaImage(buf[..], h, w), h - 1 - y, xx) == PixelAt(img, xx, y)
      invariant forall x': nat, yy': nat :: x' < h && yy' < w && x' != h - 1 - y ==>
        PixelAt(RgbaImage(buf[..], h, w), x', yy') == PixelAt(RgbaImage(old(buf[..]), h, w), x', yy')
    {
      SetPixel(buf, h, w, h - 1 - y, x, PixelAt(img, x, y));
      x := x + 1;
    }
  }

  /** `rotate_270`: the output buffer is `h` wide and `w` high. */
  method Rotate270(img: RgbaImage) returns (out: RgbaImage)
    requires Transformable(img)
    ensures IsRotate270(img, out)
  {
    var w, h := img.width, img.height;
    assert h * w == w * h;
    var buf := new Byte[h * w * 4](_ => 0);
    var y := 0;
    while y < h
      invariant 0 <= y <= h
      invariant Wf(RgbaImage(buf[..], h, w))
      invariant forall yy: nat, xx: nat :: yy < y && xx < w ==>
        PixelAt(RgbaImage(buf[..], h, w), yy, w - 1 - xx) == PixelAt(img, xx, yy)
    {
      Rotate270Row(buf, img, y);
      y := y + 1;
    }
    out := RgbaImage(buf[..], h, w);
  }

  /** The inner loop of `rotate_270`: row `y` of `img`, reversed, into column `y` of `buf`; the rest of `buf` keeps its value. */
  method Rotate270Row(buf: array<Byte>, img: RgbaImage, y: nat)
    requires Transformable(img) && y < img.height
    requires Wf(RgbaImage(buf[..], img.height, img.width))
    modifies buf
    ensures Wf(RgbaImage(buf[..], img.height, img.width))
    ensures forall xx: nat :: xx < img.width ==>
      PixelAt(RgbaImage(buf[..], img.height, img.width), y, img.width - 1 - xx) == PixelAt(img, xx, y)
    ensures forall x': nat, yy': nat :: x' < img.height && yy' < img.width && x' != y ==>
        PixelAt(RgbaImage(buf[..], img.height, img.width), x', yy') == PixelAt(RgbaImage(old(buf[..]), img.height, img.width), x', yy')
  {
    var w, h := img.width, img.height;
    var x := 0;
    while x < w
      invariant 0 <= x <= w
      invariant Wf(RgbaImage(buf[..], h, w))
      invariant forall xx: nat :: xx < x ==>
        PixelAt(RgbaImage(buf[..], h, w), y, w - 1 - xx) == PixelAt(img, xx, y)
      invariant forall x': nat, yy': nat :: x' < h && yy' < w && x' != y ==>
        PixelAt(RgbaImage(buf[..], h, w), x', yy') == PixelAt(RgbaImage(old(buf[..]), h, w), x', yy')
    {
      SetPixel(buf, h, w, y, w - 1 - x, PixelAt(img, x, y));
      x := x + 1;
    }
  }

  // ---------------------------------------------------------------------
  // apply_orientation
  // ---------------------------------------------------------------------

  /** The relation orientation value `o` of the Orientation tag asks for;
      values other than 2..8 (1 included) leave the image as it is. */
  ghost predicate Oriented(img: RgbaImage, o: nat, out: RgbaImage)
    requires Wf(img)
  {
    match o
    case 2 => IsFlipH(img, out)
    case 3 => IsRotate180(img, out)
    case 4 => IsFlipV(img, out)
    case 5 => IsTranspose(img, out)
    case 6 => IsRotate90(img, out)
    case 7 => IsTransverse(img, out)
    case 8 => IsRotate270(img, out)
    case _ => out == img
  }

  /** `apply_orientation`: 5 is `flip_h(rotate_90(img))`, 7 is `flip_h(rotate_270(img))`. */
  method ApplyOrientation(img: RgbaImage, orientation: nat) returns (out: RgbaImage)
    requires Transformable(img)
    ensures Wf(out) && |out.data| == |img.data|
    ensures Oriented(img, orientation, out)
  {
    match orientation
    case 2 => out := FlipH(img);
    case 3 => out := Rotate180(img);
    case 4 => out := FlipV(img);
    case 5 =>
      var r := Rotate90(img);
      out := FlipH(r);
      Rotate90ThenFlipH(img, r, out);
    case 6 => out := Rotate90(img);
    case 7 =>
      var r := Rotate270(img);
      out := FlipH(r);
      Rotate270ThenFlipH(img, r, out);
    case 8 => out := Rotate270(img);
    case _ => out := img;
  }

  /** Orientation 5 is a quarter turn clockwise followed by a horizontal flip. */
  lemma Rotate90ThenFlipH(a: RgbaImage, b: RgbaImage, c: RgbaImage)
    requires Wf(a) && IsRotate90(a, b) && IsFlipH(b, c)
    ensures IsTranspose(a, c)
  {
    forall x: nat, y: nat | x < a.width && y < a.height
      ensures PixelAt(c, y, x) == PixelAt(a, x, y)
    {
      assert PixelAt(b, a.height - 1 - y, x) == PixelAt(a, x, y);
      assert PixelAt(c, b.width - 1 - (a.height - 1 - y), x) == PixelAt(b, a.height - 1 - y, x);
    }
  }

  /** Orientation 7 is a quarter turn counter-clockwise followed by a horizontal flip. */
  lemma Rotate270ThenFlipH(a: RgbaImage, b: RgbaImage, c: RgbaImage)
    requires Wf(a) && IsRotate270(a, b) && IsFlipH(b, c)
    ensures IsTransverse(a, c)
  {
    forall x: nat, y: nat | x < a.width && y < a.height
      ensures PixelAt(c, a.height - 1 - y, a.width - 1 - x) == PixelAt(a, x, y)
    {
      assert PixelAt(b, y, a.width - 1 - x) == PixelAt(a, x, y);
      assert PixelAt(c, b.width - 1 - y, a.width - 1 - x) == PixelAt(b, y, a.width - 1 - x);
    }
  }

  // ---------------------------------------------------------------------
  // Algebra of the transforms
  // ---------------------------------------------------------------------

  /** Flipping left to right twice gives back the original image. */
  lemma FlipHInvolution(a: RgbaImage, b: RgbaImage, c: RgbaImage)
    requires Wf(a) && IsFlipH(a, b) && IsFlipH(b, c)
    ensures c == a
  {
    forall x: nat, y: nat | x < a.width && y < a.height
      ensures PixelAt(c, x, y) == PixelAt(a, x, y)
    {
      assert PixelAt(b, a.width - 1 - x, y) == PixelAt(a, x, y);
      assert PixelAt(c, b.width - 1 - (a.width - 1 - x), y) == PixelAt(b, a.width - 1 - x, y);
    }
    PixelExtensionality(c, a);
  }

  /** Flipping top to bottom twice gives back the original image. */
  lemma FlipVInvolution(a: RgbaImage, b: RgbaImage, c: RgbaImage)
    requires Wf(a) && IsFlipV(a, b) && IsFlipV(b, c)
    ensures c == a
  {
    forall x: nat, y: nat | x < a.width && y < a.height
      ensures PixelAt(c, x, y) == PixelAt(a, x, y)
    {
      assert PixelAt(b, x, a.height - 1 - y) == PixelAt(a, x, y);
      assert PixelAt(c, x, b.height - 1 - (a.height - 1 - y)) == PixelAt(b, x, a.height - 1 - y);
    }
    PixelExtensionality(c, a);
  }

  /** Two half turns give back the original image. */
  lemma Rotate180Involution(a: RgbaImage, b: RgbaImage, c: RgbaImage)
    requires Wf(a) && IsRotate180(a, b) && IsRotate180(b, c)
    ensures c == a
  {
    forall x: nat, y: nat | x < a.width && y < a.height
      ensures PixelAt(c, x, y) == PixelAt(a, x, y)
    {
      var x', y' := a.width - 1 - x, a.height - 1 - y;
      assert PixelAt(b, x', y') == PixelAt(a, x, y);
      assert PixelAt(c, b.width - 1 - x', b.height - 1 - y') == PixelAt(b, x', y');
    }
    PixelExtensionality(c, a);
  }

  /** A quarter turn clockwise is undone by a quarter turn counter-clockwise. */
  lemma Rotate90ThenRotate270(a: RgbaImage, b: RgbaImage, c: RgbaImage)
    requires Wf(a) && IsRotate90(a, b) && IsRotate270(b, c)
    ensures c == a
  {
    forall x: nat, y: nat | x < a.width && y < a.height
      ensures PixelAt(c, x, y) == PixelAt(a, x, y)
    {
      assert PixelAt(b, a.height - 1 - y, x) == PixelAt(a, x, y);
      assert PixelAt(c, x, b.width - 1 - (a.height - 1 - y)) == PixelAt(b, a.height - 1 - y, x);
    }
    PixelExtensionality(c, a);
  }

  /** A quarter turn counter-clockwise is undone by a quarter turn clockwise. */
  lemma Rotate270ThenRotate90(a: RgbaImage, b: RgbaImage, c: RgbaImage)
    requires Wf(a) && IsRotate270(a, b) && IsRotate90(b, c)
    ensures c == a
  {
    forall x: nat, y: nat | x < a.width && y < a.height
      ensures PixelAt(c, x, y) == PixelAt(a, x, y)
    {
      assert PixelAt(b, y, a.width - 1 - x) == PixelAt(a, x, y);
      assert PixelAt(c, b.height - 1 - (a.width - 1 - x), y) == PixelAt(b, y, a.width - 1 - x);
    }
    PixelExtensionality(c, a);
  }

  /** Two quarter turns clockwise make a half turn. */
  lemma Rotate90Twice(a: RgbaImage, b: RgbaImage, c: RgbaImage)
    requires Wf(a) && IsRotate90(a, b) && IsRotate90(b, c)
    ensures IsRotate180(a, c)
  {
    forall x: nat, y: nat | x < a.width && y < a.height
      ensures PixelAt(c, a.width - 1 - x, a.height - 1 - y) == PixelAt(a, x, y)
    {
      assert PixelAt(b, a.height - 1 - y, x) == PixelAt(a, x, y);
      assert PixelAt(c, b.height - 1 - x, a.height - 1 - y) == PixelAt(b, a.height - 1 - y, x);
    }
  }

  /** Mirroring along either diagonal twice gives back the original image. */
  lemma TransposeInvolution(a: RgbaImage, b: RgbaImage, c: RgbaImage)
    requires Wf(a) && IsTranspose(a, b) && IsTranspose(b, c)
    ensures c == a
  {
    forall x: nat, y: nat | x < a.width && y < a.height
      ensures PixelAt(c, x, y) == PixelAt(a, x, y)
    {
      assert PixelAt(b, y, x) == PixelAt(a, x, y);
      assert PixelAt(c, x, y) == PixelAt(b, y, x);
    }
    PixelExtensionality(c, a);
  }

  lemma TransverseInvolution(a: RgbaImage, b: RgbaImage, c: RgbaImage)
    requires Wf(a) && IsTransverse(a, b) && IsTransverse(b, c)
    ensures c == a
  {
    forall x: nat, y: nat | x < a.width && y < a.height
      ensures PixelAt(c, x, y) == PixelAt(a, x, y)
    {
      var x', y' := a.height - 1 - y, a.width - 1 - x;
      assert PixelAt(b, x', y') == PixelAt(a, x, y);
      assert PixelAt(c, b.height - 1 - y', b.width - 1 - x') == PixelAt(b, x', y');
    }
    PixelExtensionality(c, a);
  }

  /** The orientation value that undoes `o`: 6 and 8 swap, every other value
      undoes itself. */
  function Inverse(o: nat): (inv: nat)
    ensures inv == o <==> o != 6 && o != 8
    ensures inv == 6 <==> o == 8
    ensures inv == 8 <==> o == 6
  {
    if o == 6 then 8 else if o == 8 then 6 else o
  }

  /** Correcting an image for orientation `o` and then for `Inverse(o)`
      gives back the original image. */
  lemma OrientationUndone(a: RgbaImage, o: nat, b: RgbaImage, c: RgbaImage)
    requires Wf(a) && Oriented(a, o, b) && Wf(b) && Oriented(b, Inverse(o), c)
    ensures c == a
  {
    match o
    case 2 => FlipHInvolution(a, b, c);
    case 3 => Rotate180Involution(a, b, c);
    case 4 => FlipVInvolution(a, b, c);
    case 5 => TransposeInvolution(a, b, c);
    case 6 => Rotate90ThenRotate270(a, b, c);
    case 7 => TransverseInvolution(a, b, c);
    case 8 => Rotate270ThenRotate90(a, b, c);
    case _ =>
  }

  /** Each orientation relation determines its output: two images that both
      stand in the relation to the same input are equal. */
  lemma OrientedUnique(a: RgbaImage, o: nat, b: RgbaImage, c: RgbaImage)
    requires Wf(a) && Oriented(a, o, b) && Oriented(a, o, c)
    ensures b == c
  {
    match o
    case 2 => FlipHUnique(a, b, c);
    case 3 => Rotate180Unique(a, b, c);
    case 4 => FlipVUnique(a, b, c);
    case 5 => TransposeUnique(a, b, c);
    case 6 => Rotate90Unique(a, b, c);
    case 7 => TransverseUnique(a, b, c);
    case 8 => Rotate270Unique(a, b, c);
    case _ =>
  }

  lemma FlipHUnique(a: RgbaImage, b: RgbaImage, c: RgbaImage)
    requires Wf(a) && IsFlipH(a, b) && IsFlipH(a, c)
    ensures b == c
  {
    forall x: nat, y: nat | x < b.width && y < b.height
      ensures PixelAt(b, x, y) == PixelAt(c, x, y)
    {
      assert PixelAt(b, x, y) == PixelAt(a, a.width - 1 - x, y) == PixelAt(c, x, y);
    }
    PixelExtensionality(b, c);
  }

  lemma Rotate180Unique(a: RgbaImage, b: RgbaImage, c: RgbaImage)
    requires Wf(a) && IsRotate180(a, b) && IsRotate180(a, c)
    ensures b == c
  {
    forall x: nat, y: nat | x < b.width && y < b.height
      ensures PixelAt(b, x, y) == PixelAt(c, x, y)
    {
      assert PixelAt(b, x, y) == PixelAt(a, a.width - 1 - x, a.height - 1 - y) == PixelAt(c, x, y);
    }
    PixelExtensionality(b, c);
  }

  lemma FlipVUnique(a: RgbaImage, b: RgbaImage, c: RgbaImage)
    requires Wf(a) && IsFlipV(a, b) && IsFlipV(a, c)
    ensures b == c
  {
    forall x: nat, y: nat | x < b.width && y < b.height
      ensures PixelAt(b, x, y) == PixelAt(c, x, y)
    {
      assert PixelAt(b, x, y) == PixelAt(a, x, a.height - 1 - y) == PixelAt(c, x, y);
    }
    PixelExtensionality(b, c);
  }

  lemma TransposeUnique(a: RgbaImage, b: RgbaImage, c: RgbaImage)
    requires Wf(a) && IsTranspose(a, b) && IsTranspose(a, c)
    ensures b == c
  {
    forall x: nat, y: nat | x < b.width && y < b.height
      ensures PixelAt(b, x, y) == PixelAt(c, x, y)
    {
      assert PixelAt(b, x, y) == PixelAt(a, y, x) == PixelAt(c, x, y);
    }
    PixelExtensionality(b, c);
  }

  lemma Rotate90Unique(a: RgbaImage, b: RgbaImage, c: RgbaImage)
    requires Wf(a) && IsRotate90(a, b) && IsRotate90(a, c)
    ensures b == c
  {
    forall x: nat, y: nat | x < b.width && y < b.height
      ensures PixelAt(b, x, y) == PixelAt(c, x, y)
    {
      assert PixelAt(b, x, y) == PixelAt(a, y, a.height - 1 - x) == PixelAt(c, x, y);
    }
    PixelExtensionality(b, c);
  }

  lemma TransverseUnique(a: RgbaImage, b: RgbaImage, c: RgbaImage)
    requires Wf(a) && IsTransverse(a, b) && IsTransverse(a, c)
    ensures b == c
  {
    forall x: nat, y: nat | x < b.width && y < b.height
      ensures PixelAt(b, x, y) == PixelAt(c, x, y)
    {
      assert PixelAt(b, x, y) == PixelAt(a, a.width - 1 - y, a.height - 1 - x) == PixelAt(c, x, y);
    }
    PixelExtensionality(b, c);
  }

  lemma Rotate270Unique(a: RgbaImage, b: RgbaImage, c: RgbaImage)
    requires Wf(a) && IsRotate270(a, b) && IsRotate270(a, c)
    ensures b == c
  {
    forall x: nat, y: nat | x < b.width && y < b.height
      ensures PixelAt(b, x, y) == PixelAt(c, x, y)
    {
      assert PixelAt(b, x, y) == PixelAt(a, a.width - 1 - y, x) == PixelAt(c, x, y);
    }
    PixelExtensionality(b, c);
  }
}
