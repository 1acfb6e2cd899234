/** The canonical pixel buffer (`RgbaImage`), the static-or-animated result of a
    decode (`LoadedImage`) and the dimension guard every decoder applies before
    it allocates (src/image_loader.rs). */
module Pixels {
  import opened Base
  import opened Grid

  /** 256 megapixels: the largest width * height any decoder accepts. */
  const MAX_PIXEL_COUNT: nat := 256 * 1024 * 1024

  /** Tightly packed, row-major RGBA bytes, four per pixel. */
  datatype RgbaImage = RgbaImage(data: seq<Byte>, width: nat, height: nat)

  /** The buffer invariant: `u32` dimensions and exactly `width * height * 4`
      bytes, a count that fits in `usize`. */
  predicate Wf(img: RgbaImage)
  {
    img.width < U32_LIMIT && img.height < U32_LIMIT &&
    |img.data| == img.width * img.height * 4 && |img.data| < U64_LIMIT
  }

  /** The four bytes of pixel number `p` of a packed RGBA buffer. */
  function Pixel(data: seq<Byte>, p: nat): seq<Byte>
    requires 4 * p + 4 <= |data|
  {
    data[4 * p .. 4 * p + 4]
  }

  /** The four bytes of pixel (x, y). */
  function PixelAt(img: RgbaImage, x: nat, y: nat): (px: seq<Byte>)
    requires Wf(img) && x < img.width && y < img.height
    ensures |px| == 4
  {
    IndexBound(img.width, img.height, x, y);
    Pixel(img.data, Index(img.width, x, y))
  }

  /** Two well-formed images of the same size that agree at every pixel are equal. */
  lemma PixelExtensionality(a: RgbaImage, b: RgbaImage)
    requires Wf(a) && Wf(b) && a.width == b.width && a.height == b.height
    requires forall x: nat, y: nat :: x < a.width && y < a.height ==> PixelAt(a, x, y) == PixelAt(b, x, y)
    ensures a == b
  {
    var n := a.width * a.height;
    forall p | 0 <= p < n
      ensures Pixel(a.data, p) == Pixel(b.data, p)
    {
      var x, y := CellPixel(a, p);
      assert PixelAt(b, x, y) == Pixel(b.data, p);
    }
    SameBytes(a.data, b.data, n);
  }

  /** Pixel number `p` of the buffer is the pixel at some column and row. */
  lemma CellPixel(img: RgbaImage, p: nat) returns (x: nat, y: nat)
    requires Wf(img) && p < img.width * img.height
    ensures x < img.width && y < img.height && Index(img.width, x, y) == p
    ensures PixelAt(img, x, y) == Pixel(img.data, p)
  {
    x, y := CellOf(img.width, img.height, p);
  }

  /** Two packed buffers of `n` pixels that agree pixel by pixel are equal. */
  lemma SameBytes(a: seq<Byte>, b: seq<Byte>, n: nat)
    requires |a| == n * 4 && |b| == n * 4
    requires forall p :: 0 <= p < n ==> Pixel(a, p) == Pixel(b, p)
    ensures a == b
  {
    forall i | 0 <= i < |a|
      ensures a[i] == b[i]
    {
      var p := i / 4;
      assert Pixel(a, p)[i % 4] == a[i];
      assert Pixel(b, p)[i % 4] == b[i];
    }
  }

  /** Writes the four bytes `px` over pixel (x, y) of the `w` by `h` buffer
      `buf`; every other pixel keeps its value. */
  method SetPixel(buf: array<Byte>, w: nat, h: nat, x: nat, y: nat, px: seq<Byte>)
    requires Wf(RgbaImage(buf[..], w, h)) && x < w && y < h && |px| == 4
    modifies buf
    ensures Wf(RgbaImage(buf[..], w, h))
    ensures PixelAt(RgbaImage(buf[..], w, h), x, y) == px
    ensures forall x': nat, y': nat :: x' < w && y' < h && (x' != x || y' != y) ==>
      PixelAt(RgbaImage(buf[..], w, h), x', y') == PixelAt(RgbaImage(old(buf[..]), w, h), x', y')
  {
    var dst := Index(w, x, y);
    IndexBound(w, h, x, y);
    ghost var before := buf[..];
    buf[4 * dst] := px[0];
    buf[4 * dst + 1] := px[1];
    buf[4 * dst + 2] := px[2];
    buf[4 * dst + 3] := px[3];
    assert PixelAt(RgbaImage(buf[..], w, h), x, y) == px;
    forall x': nat, y': nat | x' < w && y' < h && (x' != x || y' != y)
      ensures PixelAt(RgbaImage(buf[..], w, h), x', y') == PixelAt(RgbaImage(before, w, h), x', y')
    {
      IndexBound(w, h, x', y');
      if Index(w, x', y') == dst { IndexInjective(w, x', y', x, y); }
    }
  }

  /** `RgbaImage::new`: an all-zero (transparent black) buffer. The source
      panics when `width * height * 4` overflows `usize`. */
  function New(width: nat, height: nat): (img: RgbaImage)
    requires width < U32_LIMIT && height < U32_LIMIT
    requires width * height * 4 < U64_LIMIT
    ensures Wf(img) && img.width == width && img.height == height
    ensures forall i :: 0 <= i < |img.data| ==> img.data[i] == 0
  {
    RgbaImage(seq(width * height * 4, _ => 0), width, height)
  }

  /** `RgbaImage::from_raw`: adopts `data` only when it holds exactly
      `width * height * 4` bytes; the size product is checked in `usize`. */
  function FromRaw(width: nat, height: nat, data: seq<Byte>): (r: Option<RgbaImage>)
    requires width < U32_LIMIT && height < U32_LIMIT
    ensures r.Some? <==> |data| == width * height * 4 && width * height * 4 < U64_LIMIT
    ensures r.Some? ==> Wf(r.value)
    ensures r.Some? ==> r.value.data == data && r.value.width == width && r.value.height == height
  {
    if width * height >= U64_LIMIT || width * height * 4 >= U64_LIMIT then None
    else if |data| == width * height * 4 then Some(RgbaImage(data, width, height))
    else None
  }

  /** A decoded file: one image, or frames with their display time in ms. */
  datatype LoadedImage =
    | Static(img: RgbaImage)
    | Animated(frames: seq<(RgbaImage, nat)>)

  /** What every decoder hands back: well-formed frames and never an empty animation. */
  predicate WfLoaded(li: LoadedImage)
  {
    match li
    case Static(img) => Wf(img)
    case Animated(frames) => |frames| >= 1 && forall i :: 0 <= i < |frames| ==> Wf(frames[i].0)
  }

  /** `LoadedImage::first_frame`; indexing `frames[0]` needs a non-empty animation. */
  function FirstFrame(li: LoadedImage): (img: RgbaImage)
    requires li.Animated? ==> |li.frames| > 0
    ensures WfLoaded(li) ==> Wf(img)
    ensures li.Static? ==> img == li.img
    ensures li.Animated? ==> img == li.frames[0].0
  {
    match li
    case Static(img) => img
    case Animated(frames) => frames[0].0
  }

  datatype DimensionError = TooLarge(pixels: nat) | ZeroDimension

  /** `validate_dimensions`: the pixel-count ceiling is checked first, then zero sides. */
  function ValidateDimensions(width: nat, height: nat): (r: Result<(), DimensionError>)
    ensures r.Ok? <==> 0 < width && 0 < height && width * height <= MAX_PIXEL_COUNT
    ensures r == Err(TooLarge(width * height)) <==> width * height > MAX_PIXEL_COUNT
    ensures r == Err(ZeroDimension) <==> width * height <= MAX_PIXEL_COUNT && (width == 0 || height == 0)
  {
    var pixels := width * height;
    if pixels > MAX_PIXEL_COUNT then Err(TooLarge(pixels))
    else if width == 0 || height == 0 then Err(ZeroDimension)
    else Ok(())
  }

  /** Dimensions that pass the guard always make a buffer that fits in memory. */
  lemma ValidatedDimensionsFit(width: nat, height: nat)
    requires ValidateDimensions(width, height).Ok?
    ensures width < U32_LIMIT && height < U32_LIMIT
    ensures width * height * 4 < U64_LIMIT
  {
    MulLeMul(1, height, width);
    MulLeMul(1, width, height);
  }
}
