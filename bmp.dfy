/** The hand-written BMP decoder (src/image_loader.rs): a BITMAPFILEHEADER and
    BITMAPINFOHEADER read at fixed offsets, rows stored bottom-up (positive
    height) or top-down (negative height), each padded to four bytes, and
    BGR or BGRA pixels reordered to RGBA. Only 24- and 32-bit files decode. */
module Bmp {
  import opened Base
  import opened Grid
  import opened Pixels

  /** Why a file is refused, in the order the decoder checks. */
  datatype BmpError =
    | TooSmall                        // fewer than the 54 header bytes
    | NotBmp                          // no "BM" signature
    | InvalidDimensions               // width <= 0 or height == 0
    | BadDimensions(e: DimensionError) // refused by the pixel-count guard
    | Truncated                       // fewer bytes than the rows need
    | UnsupportedDepth(bpp: nat)      // palette depths 1, 4 and 8
    | UnknownDepth(bpp: nat)          // any other depth but 24 and 32

  /** Where the pixels are and how they are laid out. */
  datatype Layout = Layout(offset: nat, width: nat, height: nat, bottomUp: bool, bpp: nat, rowSize: nat)

  const HEADER_SIZE: nat := 54

  /** Bytes per stored row: `bpp` bits per pixel, rounded up to whole 32-bit words. */
  function RowSize(width: nat, bpp: nat): nat
  {
    ((width * bpp + 31) / 32) * 4
  }

  /** A layout the pixel loops can run over without leaving the file. */
  ghost predicate ValidLayout(data: seq<Byte>, L: Layout)
  {
    (L.bpp == 24 || L.bpp == 32) &&
    0 < L.width && 0 < L.height && L.width * L.height <= MAX_PIXEL_COUNT &&
    L.rowSize == RowSize(L.width, L.bpp) &&
    L.offset + L.rowSize * L.height <= |data|
  }

  /** The header fields `load_bmp` reads: the pixel data offset (bytes
      10..14), the signed width and height (18..22, 22..26) and the bit
      depth (28..30), all little-endian. */
  function DataOffset(data: seq<Byte>): nat
    requires |data| >= HEADER_SIZE
  {
    ReadU32(data, 10, true).value
  }

  function HeaderWidth(data: seq<Byte>): int
    requires |data| >= HEADER_SIZE
  {
    ReadI32(data, 18, true).value
  }

  function HeaderHeight(data: seq<Byte>): int
    requires |data| >= HEADER_SIZE
  {
    ReadI32(data, 22, true).value
  }

  function Depth(data: seq<Byte>): nat
    requires |data| >= HEADER_SIZE
  {
    ReadU16(data, 28, true).value
  }

  /** `unsigned_abs` of the stored height: the number of rows. */
  function Rows(data: seq<Byte>): nat
    requires |data| >= HEADER_SIZE
  {
    var h := HeaderHeight(data);
    if h < 0 then -h else h
  }

  /** A header with the "BM" signature and a positive width and non-zero height. */
  predicate SaneHeader(data: seq<Byte>)
  {
    |data| >= HEADER_SIZE && data[0] == 'B' as int && data[1] == 'M' as int &&
    HeaderWidth(data) > 0 && HeaderHeight(data) != 0
  }

  /** A sane header whose size also passes the pixel-count guard. */
  predicate SizeAccepted(data: seq<Byte>)
  {
    SaneHeader(data) && ValidateDimensions(HeaderWidth(data), Rows(data)).Ok?
  }

  /** An accepted size whose rows all lie inside the file. */
  predicate RowsPresent(data: seq<Byte>)
  {
    SizeAccepted(data) &&
    DataOffset(data) + RowSize(HeaderWidth(data), Depth(data)) * Rows(data) <= |data|
  }

  /** The header checks of `load_bmp`, in their order: each refusal happens
      exactly when the checks before it pass and its own condition holds. */
  function CheckBmp(data: seq<Byte>): (r: Result<Layout, BmpError>)
    ensures r.Ok? ==> ValidLayout(data, r.value)
    ensures |data| < HEADER_SIZE <==> r == Err(TooSmall)
    ensures r == Err(NotBmp) <==>
      |data| >= HEADER_SIZE && (data[0] != 'B' as int || data[1] != 'M' as int)
    ensures r == Err(InvalidDimensions) <==>
      |data| >= HEADER_SIZE && data[0] == 'B' as int && data[1] == 'M' as int &&
      (HeaderWidth(data) <= 0 || HeaderHeight(data) == 0)
    ensures r.Err? && r.error.BadDimensions? <==>
      SaneHeader(data) && ValidateDimensions(HeaderWidth(data), Rows(data)).Err?
    ensures r.Err? && r.error.BadDimensions? ==>
      r.error.e == ValidateDimensions(HeaderWidth(data), Rows(data)).error
    ensures r == Err(Truncated) <==> SizeAccepted(data) && !RowsPresent(data)
    ensures r.Ok? <==> RowsPresent(data) && (Depth(data) == 24 || Depth(data) == 32)
    ensures r.Err? && r.error.UnsupportedDepth? <==>
      RowsPresent(data) && (Depth(data) == 1 || Depth(data) == 4 || Depth(data) == 8)
    ensures r.Err? && r.error.UnknownDepth? <==>
      RowsPresent(data) && !(Depth(data) in {1, 4, 8, 24, 32})
    ensures r.Err? && (r.error.UnsupportedDepth? || r.error.UnknownDepth?) ==> r.error.bpp == Depth(data)
    ensures r.Ok? ==> data[0] == 'B' as int && data[1] == 'M' as int
    ensures r.Ok? ==> r.value.offset == DataOffset(data) && r.value.bpp == Depth(data)
    ensures r.Ok? ==> r.value.width == HeaderWidth(data) && r.value.height == Rows(data)
    ensures r.Ok? ==> (r.value.bottomUp <==> HeaderHeight(data) > 0)
  {
    if |data| < HEADER_SIZE then Err(TooSmall)
    else if data[0] != 'B' as int || data[1] != 'M' as int then Err(NotBmp)
    else
      var offset := ReadU32(data, 10, true).value;
      var width := ReadI32(data, 18, true).value;
      var height := ReadI32(data, 22, true).value;
      var bpp := ReadU16(data, 28, true).value;
      if width <= 0 || height == 0 then Err(InvalidDimensions)
      else
        var w: nat, h: nat := width, if height < 0 then -height else height;
        match ValidateDimensions(w, h)
        case Err(e) => Err(BadDimensions(e))
        case Ok(_) =>
          var rowSize := RowSize(w, bpp);
          if |data| < offset + rowSize * h then Err(Truncated)
          else if bpp == 24 || bpp == 32 then Ok(Layout(offset, w, h, height > 0, bpp, rowSize))
          else if bpp == 1 || bpp == 4 || bpp == 8 then Err(UnsupportedDepth(bpp))
          else Err(UnknownDepth(bpp))
  }

  /** Stored row that output row `y` comes from. */
  function SourceRow(L: Layout, y: nat): nat
    requires y < L.height
  {
    if L.bottomUp then L.height - 1 - y else y
  }

  /** Offset of the first byte of stored pixel (x, SourceRow(y)). */
  function SourceIndex(L: Layout, x: nat, y: nat): nat
    requires y < L.height
  {
    L.offset + SourceRow(L, y) * L.rowSize + x * (L.bpp / 8)
  }

  /** A row of `bpp` bits per pixel fits in its padded row size. */
  lemma RowFits(width: nat, bpp: nat)
    requires bpp == 24 || bpp == 32
    ensures width * (bpp / 8) <= RowSize(width, bpp)
  {
    var q := (width * bpp + 31) / 32;
    assert q * 32 >= width * bpp;
  }

  /** Once the truncation check has passed, every byte a pixel loop reads is in the file. */
  lemma SourceInBounds(data: seq<Byte>, L: Layout, x: nat, y: nat)
    requires ValidLayout(data, L) && x < L.width && y < L.height
    ensures SourceIndex(L, x, y) + L.bpp / 8 <= |data|
  {
    var row := SourceRow(L, y);
    RowFits(L.width, L.bpp);
    SlotFits(x, L.width, L.bpp / 8);
    SlotFits(row, L.height, L.rowSize);
  }

  /** The RGBA value of output pixel (x, y): B, G, R(, A) stored, R, G, B, A
      produced, with opaque alpha for 24-bit files. */
  function BmpPixel(data: seq<Byte>, L: Layout, x: nat, y: nat): (px: seq<Byte>)
    requires ValidLayout(data, L) && x < L.width && y < L.height
    ensures |px| == 4
  {
    SourceInBounds(data, L, x, y);
    var s := SourceIndex(L, x, y);
    [data[s + 2], data[s + 1], data[s], if L.bpp == 24 then 255 else data[s + 3]]
  }

  /** `out` is what a successful decode of `data` must be. */
  ghost predicate Decodes(data: seq<Byte>, out: RgbaImage)
  {
    CheckBmp(data).Ok? &&
    var L := CheckBmp(data).value;
    Wf(out) && out.width == L.width && out.height == L.height &&
    forall x: nat, y: nat :: x < L.width && y < L.height ==> PixelAt(out, x, y) == BmpPixel(data, L, x, y)
  }

  /** `load_bmp` after the file has been read. */
  method LoadBmp(data: seq<Byte>) returns (r: Result<LoadedImage, BmpError>)
    ensures r.Err? <==> CheckBmp(data).Err?
    ensures r.Err? ==> r.error == CheckBmp(data).error
    ensures r.Ok? ==> r.value.Static? && Decodes(data, r.value.img)
  {
    var check := CheckBmp(data);
    if check.Err? {
      return Err(check.error);
    }
    var L := check.value;
    var w, h := L.width, L.height;
    ValidatedDimensionsFit(w, h);
    var buf := new Byte[w * h * 4](_ => 0);
    var y := 0;
    while y < h
      invariant 0 <= y <= h
      invariant Wf(RgbaImage(buf[..], w, h))
      invariant forall yy: nat, xx: nat :: yy < y && xx < w ==>
        PixelAt(RgbaImage(buf[..], w, h), xx, yy) == BmpPixel(data, L, xx, yy)
    {
      DecodeRow(data, L, buf, y);
      y := y + 1;
    }
    r := Ok(Static(RgbaImage(buf[..], w, h)));
  }

  /** The inner loop of `load_bmp`: output row `y`, reordered from its
      stored row; every other row keeps its value. */
  method DecodeRow(data: seq<Byte>, L: Layout, buf: array<Byte>, y: nat)
    requires ValidLayout(data, L) && y < L.height
    requires Wf(RgbaImage(buf[..], L.width, L.height))
    modifies buf
    ensures Wf(RgbaImage(buf[..], L.width, L.height))
    ensures forall xx: nat :: xx < L.width ==>
      PixelAt(RgbaImage(buf[..], L.width, L.height), xx, y) == BmpPixel(data, L, xx, y)
    ensures forall yy: nat, xx: nat :: yy < L.height && yy != y && xx < L.width ==>
      PixelAt(RgbaImage(buf[..], L.width, L.height), xx, yy) == PixelAt(RgbaImage(old(buf[..]), L.width, L.height), xx, yy)
  {
    var w, h := L.width, L.height;
    var x := 0;
    while x < w
      invariant 0 <= x <= w
      invariant Wf(RgbaImage(buf[..], w, h))
      invariant forall xx: nat :: xx < x ==>
        PixelAt(RgbaImage(buf[..], w, h), xx, y) == BmpPixel(data, L, xx, y)
      invariant forall yy: nat, xx: nat :: yy < h && yy != y && xx < w ==>
        PixelAt(RgbaImage(buf[..], w, h), xx, yy) == PixelAt(RgbaImage(old(buf[..]), w, h), xx, yy)
    {
      SetPixel(buf, w, h, x, y, BmpPixel(data, L, x, y));
      x := x + 1;
    }
  }

  // ---------------------------------------------------------------------
  // A reference encoder: a 32-bit, top-down file holding exactly `img`.
  // ---------------------------------------------------------------------

  /** The four little-endian bytes of a 32-bit value. */
  function Le32(v: nat): (b: seq<Byte>)
    requires v < U32_LIMIT
    ensures |b| == 4
    ensures b[0] as int + 0x100 * b[1] as int + 0x1_0000 * b[2] as int + 0x100_0000 * b[3] as int == v
  {
    var q1: nat := v / 0x100;
    var q2: nat := q1 / 0x100;
    var q3: nat := q2 / 0x100;
    assert v == v % 0x100 + 0x100 * q1;
    assert q1 == q1 % 0x100 + 0x100 * q2;
    assert q2 == q2 % 0x100 + 0x100 * q3;
    [v % 0x100, q1 % 0x100, q2 % 0x100, q3]
  }

  lemma ReadLe32(d: seq<Byte>, off: nat, v: nat)
    requires v < U32_LIMIT && off + 4 <= |d| && d[off .. off + 4] == Le32(v)
    ensures ReadU32(d, off, true) == Some(v)
  {
    var b := Le32(v);
    assert d[off] == b[0] && d[off + 1] == b[1] && d[off + 2] == b[2] && d[off + 3] == b[3];
  }

  /** Channel `k` of an RGBA pixel is stored at position `Swap(k)`: R and B trade places. */
  function Swap(k: nat): nat
    requires k < 4
  {
    if k == 0 then 2 else if k == 2 then 0 else k
  }

  /** The 54-byte header of a `w` by `h` top-down 32-bit file. */
  function Header32(w: nat, h: nat): (hd: seq<Byte>)
    requires 0 < w < 0x8000_0000 && 0 < h <= 0x8000_0000
    ensures |hd| == HEADER_SIZE
  {
    var fileHeader := ['B' as int, 'M' as int, 0, 0, 0, 0, 0, 0, 0, 0, HEADER_SIZE, 0, 0, 0];
    var infoHeader := [40, 0, 0, 0] + Le32(w) + Le32(U32_LIMIT - h) + [1, 0, 32, 0] + seq(24, _ => 0);
    fileHeader + infoHeader
  }

  /** Pixel bytes with the first and third byte of every four swapped:
      RGBA becomes BGRA and back. */
  function SwapRB(data: seq<Byte>): (r: seq<Byte>)
    requires |data| % 4 == 0
    ensures |r| == |data|
  {
    seq(|data|, i requires 0 <= i < |data| => data[i - i % 4 + Swap(i % 4)])
  }

  lemma SwapRBPixel(data: seq<Byte>, p: nat)
    requires |data| % 4 == 0 && 4 * p + 4 <= |data|
    ensures SwapRB(data)[4 * p] == data[4 * p + 2]
    ensures SwapRB(data)[4 * p + 1] == data[4 * p + 1]
    ensures SwapRB(data)[4 * p + 2] == data[4 * p]
    ensures SwapRB(data)[4 * p + 3] == data[4 * p + 3]
  {
    assert (4 * p) % 4 == 0 && (4 * p + 1) % 4 == 1 && (4 * p + 2) % 4 == 2 && (4 * p + 3) % 4 == 3;
  }

  /** A BMP file whose pixels are `img`: header, then BGRA rows from the top. */
  function EncodeBmp32(img: RgbaImage): (data: seq<Byte>)
    requires Wf(img) && ValidateDimensions(img.width, img.height).Ok?
    ensures |data| == HEADER_SIZE + |img.data|
  {
    ValidatedDimensionsFit(img.width, img.height);
    MulLeMul(1, img.height, img.width);
    MulLeMul(1, img.width, img.height);
    Header32(img.width, img.height) + SwapRB(img.data)
  }

  /** The fields the decoder reads from the encoder's header. */
  lemma Header32Fields(w: nat, h: nat)
    requires 0 < w < 0x8000_0000 && 0 < h <= 0x8000_0000
    ensures Header32(w, h)[0] == 'B' as int && Header32(w, h)[1] == 'M' as int
    ensures ReadU32(Header32(w, h), 10, true) == Some(HEADER_SIZE)
    ensures ReadU32(Header32(w, h), 18, true) == Some(w)
    ensures ReadU32(Header32(w, h), 22, true) == Some(U32_LIMIT - h)
    ensures ReadU16(Header32(w, h), 28, true) == Some(32)
  {
    var hd := Header32(w, h);
    assert hd[18 .. 22] == Le32(w);
    assert hd[22 .. 26] == Le32(U32_LIMIT - h);
    ReadLe32(hd, 18, w);
    ReadLe32(hd, 22, U32_LIMIT - h);
  }

  /** Reads inside a prefix see the prefix. */
  lemma PrefixReads(d: seq<Byte>, hd: seq<Byte>)
    requires |hd| <= |d| && d[..|hd|] == hd
    ensures forall off: nat :: off + 4 <= |hd| ==> ReadU32(d, off, true) == ReadU32(hd, off, true)
    ensures forall off: nat :: off + 2 <= |hd| ==> ReadU16(d, off, true) == ReadU16(hd, off, true)
  {
    forall off: nat | off + 4 <= |hd|
      ensures ReadU32(d, off, true) == ReadU32(hd, off, true)
    {
      assert d[off] == hd[off] && d[off + 1] == hd[off + 1] && d[off + 2] == hd[off + 2] && d[off + 3] == hd[off + 3];
    }
    forall off: nat | off + 2 <= |hd|
      ensures ReadU16(d, off, true) == ReadU16(hd, off, true)
    {
      assert d[off] == hd[off] && d[off + 1] == hd[off + 1];
    }
  }

  lemma RowSize32(w: nat)
    ensures RowSize(w, 32) == 4 * w
  {
    assert w * 32 + 31 == 32 * w + 31;
    assert (32 * w + 31) / 32 == w;
  }

  /** The encoder's output passes every header check, as a top-down 32-bit file. */
  lemma EncodeBmp32Accepted(img: RgbaImage)
    requires Wf(img) && ValidateDimensions(img.width, img.height).Ok?
    ensures CheckBmp(EncodeBmp32(img)).Ok?
    ensures CheckBmp(EncodeBmp32(img)).value ==
      Layout(HEADER_SIZE, img.width, img.height, false, 32, 4 * img.width)
  {
    var w, h := img.width, img.height;
    MulLeMul(1, h, w);
    MulLeMul(1, w, h);
    var d := EncodeBmp32(img);
    var hd := Header32(w, h);
    assert d[..HEADER_SIZE] == hd;
    Header32Fields(w, h);
    PrefixReads(d, hd);
    assert ReadI32(d, 22, true) == Some(-(h as int));
    RowSize32(w);
    Times4(w, h);
  }

  /** The stored bytes of pixel `p` of the encoded file. */
  lemma EncodedPixel(img: RgbaImage, p: nat)
    requires Wf(img) && ValidateDimensions(img.width, img.height).Ok?
    requires 4 * p + 4 <= |img.data|
    ensures EncodeBmp32(img)[HEADER_SIZE + 4 * p] == img.data[4 * p + 2]
    ensures EncodeBmp32(img)[HEADER_SIZE + 4 * p + 1] == img.data[4 * p + 1]
    ensures EncodeBmp32(img)[HEADER_SIZE + 4 * p + 2] == img.data[4 * p]
    ensures EncodeBmp32(img)[HEADER_SIZE + 4 * p + 3] == img.data[4 * p + 3]
  {
    assert |img.data| % 4 == 0;
    SwapRBPixel(img.data, p);
  }

  /** The decoder reads pixel (x, y) of the encoded file back as pixel (x, y) of `img`. */
  lemma EncodedPixelReads(img: RgbaImage, d: seq<Byte>, L: Layout, x: nat, y: nat)
    requires Wf(img) && ValidateDimensions(img.width, img.height).Ok?
    requires x < img.width && y < img.height
    requires d == EncodeBmp32(img) && ValidLayout(d, L)
    requires L == Layout(HEADER_SIZE, img.width, img.height, false, 32, 4 * img.width)
    ensures BmpPixel(d, L, x, y) == PixelAt(img, x, y)
  {
    var w := img.width;
    var p := Index(w, x, y);
    assert SourceIndex(L, x, y) == HEADER_SIZE + 4 * p by {
      ByteOffset(w, x, y);
      Times4(y, w);
    }
    assert 4 * p + 4 <= |img.data| by {
      IndexBound(w, img.height, x, y);
      MulLeMul(p + 1, w * img.height, 4);
    }
    EncodedPixel(img, p);
  }

  /** Decoding what the encoder wrote gives back the image. */
  lemma BmpRoundTrip(img: RgbaImage, out: RgbaImage)
    requires Wf(img) && ValidateDimensions(img.width, img.height).Ok?
    requires Decodes(EncodeBmp32(img), out)
    ensures out == img
  {
    EncodeBmp32Accepted(img);
    var d := EncodeBmp32(img);
    var L := CheckBmp(d).value;
    forall x: nat, y: nat | x < img.width && y < img.height
      ensures PixelAt(out, x, y) == PixelAt(img, x, y)
    {
      EncodedPixelReads(img, d, L, x, y);
    }
    PixelExtensionality(out, img);
  }
}
