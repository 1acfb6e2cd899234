/** Painting into the XRGB window buffer (src/render.rs): solid rectangles,
    the dark status-bar overlay, the centred composite of the viewed image and
    thumbnail blits. A buffer is a row-major grid of 32-bit words whose cell
    (col, row) of a `bufW`-wide buffer is word `row * bufW + col`. */
module Render {
  import opened Base
  import opened Grid
  import opened Pixels

  /** A `u32` word of an XRGB buffer. */
  type Word = w: int | 0 <= w < U32_LIMIT

  /** #1a1a1a, the window background. */
  const BG_COLOR: Word := 0x001a1a1a

  /** The red, green and blue channels of an XRGB word. */
  function Red(w: Word): Byte { (w / 0x1_0000) % 256 }
  function Green(w: Word): Byte { (w / 0x100) % 256 }
  function Blue(w: Word): Byte { w % 256 }

  /** A word whose top byte is clear is the packing of its channels. */
  lemma PackChannels(w: Word)
    requires w < 0x100_0000
    ensures Pack(Red(w), Green(w), Blue(w)) == w
  {
    var hi, lo := w / 0x1_0000, w % 0x1_0000;
    var mid := lo / 0x100;
    DivMod(lo, 0x100, mid, lo % 0x100);
    DivMod(w, 0x100, hi * 0x100 + mid, lo % 0x100);
    DivMod(hi * 0x100 + mid, 0x100, hi, mid);
    assert Red(w) == hi && Green(w) == mid && Blue(w) == lo % 0x100;
    assert w == hi * 0x1_0000 + mid * 0x100 + lo % 0x100;
  }

  /** `(r << 16) | (g << 8) | b`. */
  function Pack(r: Byte, g: Byte, b: Byte): (w: Word)
    ensures w < 0x100_0000
  {
    PackSplits(r, g, b);
    r * 0x1_0000 + g * 0x100 + b
  }

  /** Taking a packed word apart gives back the channels it was packed from. */
  lemma PackRoundTrip(r: Byte, g: Byte, b: Byte)
    ensures Red(Pack(r, g, b)) == r && Green(Pack(r, g, b)) == g && Blue(Pack(r, g, b)) == b
  {
    PackSplits(r, g, b);
  }

  /** The channels of a packed word are the bytes it was packed from. */
  lemma PackSplits(r: Byte, g: Byte, b: Byte)
    ensures r * 0x1_0000 + g * 0x100 + b < 0x100_0000
    ensures (r * 0x1_0000 + g * 0x100 + b) / 0x1_0000 == r
    ensures ((r * 0x1_0000 + g * 0x100 + b) / 0x100) % 256 == g
    ensures (r * 0x1_0000 + g * 0x100 + b) % 256 == b
  {
    var w := r * 0x1_0000 + g * 0x100 + b;
    DivMod(w, 0x1_0000, r, g * 0x100 + b);
    DivMod(w, 0x100, r * 0x100 + g, b);
    DivMod(r * 0x100 + g, 0x100, r, g);
  }

  /** `u32::saturating_add`. */
  function SatAdd(a: nat, b: nat): (s: nat)
    ensures s == if a + b < U32_LIMIT then a + b else U32_LIMIT - 1
  {
    if a + b < U32_LIMIT then a + b else U32_LIMIT - 1
  }

  /** `u32::saturating_sub`. */
  function SatSub(a: nat, b: nat): (s: nat)
    ensures a >= b ==> s + b == a
    ensures a < b ==> s == 0
  {
    if a >= b then a - b else 0
  }

  /** One channel of `src` at opacity `a` over `dst`: `(s * a + d * (255 - a)) / 255`. */
  function Blend(s: Byte, d: Byte, a: nat): (c: Byte)
    requires a <= 255
  {
    BlendFits(s, d, a);
    (s * a + d * (255 - a)) / 255
  }

  lemma BlendFits(s: Byte, d: Byte, a: nat)
    requires a <= 255
    ensures 0 <= (s * a + d * (255 - a)) / 255 < 256
  {
    MulLeMul(0, s, a);
    MulLeMul(0, d, 255 - a);
    MulLeMul(s, 255, a);
    MulLeMul(d, 255, 255 - a);
  }

  /** A blended channel lies between its two inputs, so it fits in a byte;
      at full opacity it is the source, at zero opacity the destination. */
  lemma BlendBetween(s: Byte, d: Byte, a: nat)
    requires a <= 255
    ensures (if s < d then s else d) <= Blend(s, d, a) <= (if s < d then d else s)
    ensures a == 255 ==> Blend(s, d, a) == s
    ensures a == 0 ==> Blend(s, d, a) == d
  {
    var lo := if s < d then s else d;
    var hi := if s < d then d else s;
    MulLeMul(lo, s, a);
    MulLeMul(lo, d, 255 - a);
    MulLeMul(s, hi, a);
    MulLeMul(d, hi, 255 - a);
    assert lo * a + lo * (255 - a) == lo * 255;
    assert hi * a + hi * (255 - a) == hi * 255;
  }

  /** An RGBA pixel drawn over the word `bg`: opaque pixels replace it,
      transparent ones leave it, others blend channel by channel. */
  function Over(bg: Word, px: seq<Byte>): (w: Word)
    requires |px| == 4
    ensures px[3] == 255 ==> w == Pack(px[0], px[1], px[2])
    ensures px[3] == 0 ==> w == bg
  {
    var a := px[3];
    if a == 255 then Pack(px[0], px[1], px[2])
    else if a > 0 then
      Pack(Blend(px[0], Red(bg), a), Blend(px[1], Green(bg), a), Blend(px[2], Blue(bg), a))
    else bg
  }

  /** Every channel of a partly transparent pixel drawn over `bg` lies between
      the pixel's channel and the background's. */
  lemma OverBetween(bg: Word, px: seq<Byte>)
    requires |px| == 4 && 0 < px[3] < 255
    ensures Red(Over(bg, px)) == Blend(px[0], Red(bg), px[3])
    ensures Green(Over(bg, px)) == Blend(px[1], Green(bg), px[3])
    ensures Blue(Over(bg, px)) == Blend(px[2], Blue(bg), px[3])
    ensures Over(bg, px) < 0x100_0000
  {
    PackRoundTrip(Blend(px[0], Red(bg), px[3]), Blend(px[1], Green(bg), px[3]), Blend(px[2], Blue(bg), px[3]));
  }

  /** Overwrites cell (col, row) of a `bufW`-wide buffer; no other cell changes. */
  method SetCell(buf: array<Word>, bufW: nat, col: nat, row: nat, v: Word)
    requires col < bufW && Index(bufW, col, row) < buf.Length
    modifies buf
    ensures buf[Index(bufW, col, row)] == v
    ensures forall c: nat, r: nat :: c < bufW && Index(bufW, c, r) < buf.Length && (c != col || r != row) ==>
      buf[Index(bufW, c, r)] == old(buf[Index(bufW, c, r)])
  {
    buf[Index(bufW, col, row)] := v;
    forall c: nat, r: nat | c < bufW && Index(bufW, c, r) < buf.Length && (c != col || r != row)
      ensures buf[Index(bufW, c, r)] == old(buf[Index(bufW, c, r)])
    {
      if Index(bufW, c, r) == Index(bufW, col, row) {
        IndexInjective(bufW, c, r, col, row);
      }
    }
  }

  /** The rectangle `fill_rect` and `draw_overlay` paint: columns
      `x .. x + w` and rows `y .. y + h` (saturating), cut to the buffer width
      and to its whole rows. */
  predicate InRect(bufW: nat, rows: nat, x: nat, y: nat, w: nat, h: nat, c: nat, r: nat)
  {
    y <= r < SatAdd(y, h) && r < rows && x <= c < SatAdd(x, w) && c < bufW
  }

  /** A whole row of the buffer fits below its length. */
  lemma RowCellInBuffer(bufW: nat, len: nat, c: nat, r: nat)
    requires bufW > 0 && c < bufW && r < len / bufW
    ensures Index(bufW, c, r) < len
  {
    IndexBound(bufW, len / bufW, c, r);
    assert bufW * (len / bufW) <= len;
  }

  /** `fill_rect`. */
  method FillRect(buf: array<Word>, bufW: nat, x: nat, y: nat, w: nat, h: nat, color: Word)
    requires bufW > 0 && buf.Length < U32_LIMIT && x < U32_LIMIT && y < U32_LIMIT
    modifies buf
    ensures forall c: nat, r: nat :: c < bufW && Index(bufW, c, r) < buf.Length ==>
      buf[Index(bufW, c, r)] == if InRect(bufW, buf.Length / bufW, x, y, w, h, c, r) then color else old(buf[Index(bufW, c, r)])
  {
    var rows := buf.Length / bufW;
    var row := y;
    while row < SatAdd(y, h)
      invariant y <= row
      invariant forall c: nat, r: nat :: c < bufW && Index(bufW, c, r) < buf.Length ==>
        buf[Index(bufW, c, r)] == if InRect(bufW, rows, x, y, w, h, c, r) && r < row then color else old(buf[Index(bufW, c, r)])
    {
      if row >= rows {
        break;
      }
      var col := x;
      while col < SatAdd(x, w)
        invariant x <= col
        invariant forall c: nat, r: nat :: c < bufW && Index(bufW, c, r) < buf.Length ==>
          buf[Index(bufW, c, r)] ==
            if InRect(bufW, rows, x, y, w, h, c, r) && (r < row || (r == row && c < col)) then color
            else old(buf[Index(bufW, c, r)])
      {
        if col >= bufW {
          break;
        }
        RowCellInBuffer(bufW, buf.Length, col, row);
        SetCell(buf, bufW, col, row, color);
        col := col + 1;
      }
      row := row + 1;
    }
  }

  /** One word darkened by the black overlay at opacity `alpha`; the unused top byte is cleared. */
  function Darken(w: Word, alpha: nat): (d: Word)
    requires alpha <= 255
    ensures d < 0x100_0000
    ensures Red(d) <= Red(w) && Green(d) <= Green(w) && Blue(d) <= Blue(w)
    ensures alpha == 0 && w < 0x100_0000 ==> d == w
  {
    BlendBetween(0, Red(w), alpha);
    BlendBetween(0, Green(w), alpha);
    BlendBetween(0, Blue(w), alpha);
    if alpha == 0 && w < 0x100_0000 then
      PackChannels(w);
      w
    else
      PackRoundTrip(Blend(0, Red(w), alpha), Blend(0, Green(w), alpha), Blend(0, Blue(w), alpha));
      Pack(Blend(0, Red(w), alpha), Blend(0, Green(w), alpha), Blend(0, Blue(w), alpha))
  }

  /** `draw_overlay`: the black overlay blended over the rectangle `fill_rect` would fill. */
  method DrawOverlay(buf: array<Word>, bufW: nat, x: nat, y: nat, w: nat, h: nat, alpha: nat)
    requires buf.Length < U32_LIMIT && x < U32_LIMIT && y < U32_LIMIT && alpha <= 255
    modifies buf
    ensures bufW == 0 ==> buf[..] == old(buf[..])
    ensures forall c: nat, r: nat :: c < bufW && Index(bufW, c, r) < buf.Length ==>
      buf[Index(bufW, c, r)] ==
        if InRect(bufW, buf.Length / bufW, x, y, w, h, c, r) then Darken(old(buf[Index(bufW, c, r)]), alpha)
        else old(buf[Index(bufW, c, r)])
  {
    var rows := buf.Length / (if bufW > 0 then bufW else 1);
    var row := y;
    while row < SatAdd(y, h)
      invariant y <= row
      invariant bufW == 0 ==> buf[..] == old(buf[..])
      invariant forall c: nat, r: nat :: c < bufW && Index(bufW, c, r) < buf.Length ==>
        buf[Index(bufW, c, r)] ==
          if InRect(bufW, rows, x, y, w, h, c, r) && r < row then Darken(old(buf[Index(bufW, c, r)]), alpha)
          else old(buf[Index(bufW, c, r)])
    {
      if row >= rows {
        break;
      }
      var col := x;
      while col < SatAdd(x, w)
        invariant x <= col
        invariant bufW == 0 ==> buf[..] == old(buf[..])
        invariant forall c: nat, r: nat :: c < bufW && Index(bufW, c, r) < buf.Length ==>
          buf[Index(bufW, c, r)] ==
            if InRect(bufW, rows, x, y, w, h, c, r) && (r < row || (r == row && c < col)) then Darken(old(buf[Index(bufW, c, r)]), alpha)
            else old(buf[Index(bufW, c, r)])
      {
        if col >= bufW {
          break;
        }
        RowCellInBuffer(bufW, buf.Length, col, row);
        var existing := buf[Index(bufW, col, row)];
        SetCell(buf, bufW, col, row, Darken(existing, alpha));
        col := col + 1;
      }
      row := row + 1;
    }
  }

  /** `i32` division by 2, which truncates toward zero. */
  function Half(n: int): (q: int)
    ensures -1 <= n - 2 * q <= 1
    ensures n >= 0 ==> 0 <= 2 * q <= n
    ensures n < 0 ==> n <= 2 * q <= 0
  {
    if n >= 0 then n / 2 else -((-n) / 2)
  }

  /** What `composite_centered` leaves in window cell (c, r) when the image's
      top-left corner is at (cx, cy): the image pixel there over the
      background, or the background where the image does not reach. */
  function CenteredCell(img: RgbaImage, cx: int, cy: int, c: nat, r: nat): Word
    requires Wf(img)
  {
    var ix, iy := c - cx, r - cy;
    if 0 <= ix < img.width && 0 <= iy < img.height then Over(BG_COLOR, PixelAt(img, ix, iy))
    else BG_COLOR
  }

  /** The window position of the image's top-left corner: centred, then panned. */
  function CenterOrigin(win: nat, dim: nat, offset: int): int
  {
    Half(win - dim) + offset
  }

  /** `cells` after the first `n` pixels of image row `iy` are drawn with the
      image's top-left corner at (cx, cy); pixels off the window are skipped. */
  function PaintRow(cells: seq<Word>, winW: nat, winH: nat, img: RgbaImage, cx: int, cy: int, iy: nat, n: nat): (out: seq<Word>)
    requires Wf(img) && iy < img.height && n <= img.width && |cells| == winW * winH
    ensures |out| == |cells|
    decreases n
  {
    if n == 0 then cells
    else
      var prev := PaintRow(cells, winW, winH, img, cx, cy, iy, n - 1);
      var dx, dy := cx + (n - 1), cy + iy;
      if 0 <= dx < winW && 0 <= dy < winH then
        IndexBound(winW, winH, dx, dy);
        prev[Index(winW, dx, dy) := Over(BG_COLOR, PixelAt(img, n - 1, iy))]
      else prev
  }

  /** `cells` after the first `m` image rows are drawn. */
  function PaintRows(cells: seq<Word>, winW: nat, winH: nat, img: RgbaImage, cx: int, cy: int, m: nat): (out: seq<Word>)
    requires Wf(img) && m <= img.height && |cells| == winW * winH
    ensures |out| == |cells|
    decreases m
  {
    if m == 0 then cells
    else PaintRow(PaintRows(cells, winW, winH, img, cx, cy, m - 1), winW, winH, img, cx, cy, m - 1, img.width)
  }

  /** Drawing part of a row changes exactly the window cells of that row whose
      image column is among the pixels drawn, each to the pixel over the background. */
  lemma {:induction false} PaintRowCells(cells: seq<Word>, winW: nat, winH: nat, img: RgbaImage, cx: int, cy: int, iy: nat, n: nat)
    requires Wf(img) && iy < img.height && n <= img.width && |cells| == winW * winH
    ensures forall c: nat, r: nat :: c < winW && Index(winW, c, r) < |cells| ==>
      PaintRow(cells, winW, winH, img, cx, cy, iy, n)[Index(winW, c, r)] ==
        if r - cy == iy && 0 <= c - cx < n then Over(BG_COLOR, PixelAt(img, c - cx, iy)) else cells[Index(winW, c, r)]
    decreases n
  {
    if n > 0 {
      PaintRowCells(cells, winW, winH, img, cx, cy, iy, n - 1);
      var dx, dy := cx + (n - 1), cy + iy;
      forall c: nat, r: nat | c < winW && Index(winW, c, r) < |cells|
        ensures PaintRow(cells, winW, winH, img, cx, cy, iy, n)[Index(winW, c, r)] ==
          if r - cy == iy && 0 <= c - cx < n then Over(BG_COLOR, PixelAt(img, c - cx, iy)) else cells[Index(winW, c, r)]
      {
        RowOfIndex(winW, winH, c, r);
        if 0 <= dx < winW && 0 <= dy < winH && Index(winW, c, r) == Index(winW, dx, dy) {
          IndexInjective(winW, c, r, dx, dy);
        }
      }
    }
  }

  /** Drawing the first `m` rows puts every image pixel of those rows that
      lands in the window over the background, and leaves the other cells. */
  lemma {:induction false} PaintRowsCells(cells: seq<Word>, winW: nat, winH: nat, img: RgbaImage, cx: int, cy: int, m: nat)
    requires Wf(img) && m <= img.height && |cells| == winW * winH
    ensures forall c: nat, r: nat :: c < winW && Index(winW, c, r) < |cells| ==>
      PaintRows(cells, winW, winH, img, cx, cy, m)[Index(winW, c, r)] ==
        if 0 <= r - cy < m && 0 <= c - cx < img.width then Over(BG_COLOR, PixelAt(img, c - cx, r - cy))
        else cells[Index(winW, c, r)]
    decreases m
  {
    if m > 0 {
      PaintRowsCells(cells, winW, winH, img, cx, cy, m - 1);
      PaintRowCells(PaintRows(cells, winW, winH, img, cx, cy, m - 1), winW, winH, img, cx, cy, m - 1, img.width);
    }
  }

  /** A row that falls off the window leaves every cell as it was. */
  lemma {:induction false} PaintRowOffWindow(cells: seq<Word>, winW: nat, winH: nat, img: RgbaImage, cx: int, cy: int, iy: nat, n: nat)
    requires Wf(img) && iy < img.height && n <= img.width && |cells| == winW * winH
    requires cy + iy < 0 || cy + iy >= winH
    ensures PaintRow(cells, winW, winH, img, cx, cy, iy, n) == cells
    decreases n
  {
    if n > 0 {
      PaintRowOffWindow(cells, winW, winH, img, cx, cy, iy, n - 1);
    }
  }

  /** `composite_centered`: a `winW * winH` buffer with the image centred,
      shifted by the pan offset and drawn over the background. */
  method CompositeCentered(img: RgbaImage, winW: nat, winH: nat, offsetX: int, offsetY: int)
    returns (out: seq<Word>)
    requires Wf(img)
    ensures |out| == winW * winH
    ensures forall c: nat, r: nat :: c < winW && r < winH ==> Index(winW, c, r) < |out|
    ensures forall c: nat, r: nat :: c < winW && Index(winW, c, r) < |out| ==>
      out[Index(winW, c, r)] == CenteredCell(img, CenterOrigin(winW, img.width, offsetX), CenterOrigin(winH, img.height, offsetY), c, r)
  {
    var buf := NewBackground(winW * winH);
    ghost var blank := buf[..];
    var cx := CenterOrigin(winW, img.width, offsetX);
    var cy := CenterOrigin(winH, img.height, offsetY);
    CenteredRows(buf, winW, winH, img, cx, cy);
    out := buf[..];
    CenteredDone(blank, winW, winH, img, cx, cy);
  }

  /** The window buffer before drawing: every cell the background. */
  method NewBackground(n: nat) returns (buf: array<Word>)
    ensures fresh(buf) && buf.Length == n
    ensures forall k :: 0 <= k < n ==> buf[k] == BG_COLOR
  {
    buf := new Word[n](_ => BG_COLOR);
  }

  /** The outer loop of `composite_centered`: every image row in turn. */
  method CenteredRows(buf: array<Word>, winW: nat, winH: nat, img: RgbaImage, cx: int, cy: int)
    requires Wf(img) && buf.Length == winW * winH
    modifies buf
    ensures buf[..] == PaintRows(old(buf[..]), winW, winH, img, cx, cy, img.height)
  {
    ghost var orig := buf[..];
    var iy := 0;
    while iy < img.height
      invariant iy <= img.height
      invariant buf[..] == PaintRows(orig, winW, winH, img, cx, cy, iy)
    {
      CenteredRow(buf, winW, winH, img, cx, cy, iy);
      iy := iy + 1;
    }
  }

  /** Drawing every row over a blank window gives the centred composite. */
  lemma CenteredDone(blank: seq<Word>, winW: nat, winH: nat, img: RgbaImage, cx: int, cy: int)
    requires Wf(img) && |blank| == winW * winH
    requires forall k :: 0 <= k < |blank| ==> blank[k] == BG_COLOR
    ensures forall c: nat, r: nat :: c < winW && r < winH ==> Index(winW, c, r) < |blank|
    ensures forall c: nat, r: nat :: c < winW && Index(winW, c, r) < |blank| ==>
      PaintRows(blank, winW, winH, img, cx, cy, img.height)[Index(winW, c, r)] == CenteredCell(img, cx, cy, c, r)
  {
    forall c: nat, r: nat | c < winW && r < winH ensures Index(winW, c, r) < |blank| {
      IndexBound(winW, winH, c, r);
    }
    PaintRowsCells(blank, winW, winH, img, cx, cy, img.height);
  }

  /** The inner loop of `composite_centered`: image row `iy` onto window row
      `cy + iy`, skipped when that row is off the window. */
  method CenteredRow(buf: array<Word>, winW: nat, winH: nat, img: RgbaImage, cx: int, cy: int, iy: nat)
    requires Wf(img) && iy < img.height && buf.Length == winW * winH
    modifies buf
    ensures buf[..] == PaintRow(old(buf[..]), winW, winH, img, cx, cy, iy, img.width)
  {
    ghost var orig := buf[..];
    var dy := cy + iy;
    if dy < 0 || dy >= winH {
      PaintRowOffWindow(orig, winW, winH, img, cx, cy, iy, img.width);
      return;
    }
    var ix := 0;
    while ix < img.width
      invariant ix <= img.width
      invariant buf[..] == PaintRow(orig, winW, winH, img, cx, cy, iy, ix)
    {
      var dx := cx + ix;
      if 0 <= dx < winW {
        IndexBound(winW, winH, dx, dy);
        buf[Index(winW, dx, dy)] := Over(BG_COLOR, PixelAt(img, ix, iy));
      }
      ix := ix + 1;
    }
  }

  /** Whether cell (c, r) of the buffer is covered by the thumbnail placed at (ox, oy). */
  predicate Covers(thumb: RgbaImage, ox: nat, oy: nat, c: nat, r: nat)
  {
    ox <= c < ox + thumb.width && oy <= r < oy + thumb.height
  }

  /** Cell (c, r) after the thumbnail placed at (ox, oy) is drawn over `prev`,
      the value the cell held before. */
  function Blitted(prev: Word, thumb: RgbaImage, ox: nat, oy: nat, c: nat, r: nat): Word
    requires Wf(thumb)
  {
    if Covers(thumb, ox, oy, c, r) then Over(prev, PixelAt(thumb, c - ox, r - oy)) else prev
  }

  /** Where a thumbnail `dim` pixels long starts in a cell `cell` pixels long at `d`. */
  function ThumbOrigin(d: nat, cell: nat, dim: nat): nat
  {
    d + SatSub(cell, dim) / 2
  }

  /** `cells` after the first `n` pixels of thumbnail row `iy` are drawn at
      buffer row `oy + iy`; pixels past the buffer's right edge are dropped. */
  function BlitRowCells(cells: seq<Word>, bufW: nat, bufH: nat, thumb: RgbaImage, ox: nat, oy: nat, iy: nat, n: nat): (out: seq<Word>)
    requires Wf(thumb) && iy < thumb.height && n <= thumb.width && oy + iy < bufH && |cells| == bufW * bufH
    ensures |out| == |cells|
    decreases n
  {
    if n == 0 then cells
    else
      var prev := BlitRowCells(cells, bufW, bufH, thumb, ox, oy, iy, n - 1);
      var px := ox + (n - 1);
      if px < bufW then
        IndexBound(bufW, bufH, px, oy + iy);
        prev[Index(bufW, px, oy + iy) := Over(prev[Index(bufW, px, oy + iy)], PixelAt(thumb, n - 1, iy))]
      else prev
  }

  /** `cells` after the first `m` thumbnail rows are drawn; rows below the
      buffer's bottom edge are dropped. */
  function BlitRowsCells(cells: seq<Word>, bufW: nat, bufH: nat, thumb: RgbaImage, ox: nat, oy: nat, m: nat): (out: seq<Word>)
    requires Wf(thumb) && m <= thumb.height && |cells| == bufW * bufH
    ensures |out| == |cells|
    decreases m
  {
    if m == 0 then cells
    else
      var prev := BlitRowsCells(cells, bufW, bufH, thumb, ox, oy, m - 1);
      if oy + (m - 1) < bufH then BlitRowCells(prev, bufW, bufH, thumb, ox, oy, m - 1, thumb.width) else prev
  }

  /** Drawing part of a thumbnail row blends exactly the cells of that buffer
      row under the pixels drawn, each over the value it held. */
  lemma {:induction false} BlitRowCellsAt(cells: seq<Word>, bufW: nat, bufH: nat, thumb: RgbaImage, ox: nat, oy: nat, iy: nat, n: nat)
    requires Wf(thumb) && iy < thumb.height && n <= thumb.width && oy + iy < bufH && |cells| == bufW * bufH
    ensures forall c: nat, r: nat :: c < bufW && Index(bufW, c, r) < |cells| ==>
      BlitRowCells(cells, bufW, bufH, thumb, ox, oy, iy, n)[Index(bufW, c, r)] ==
        if r == oy + iy && ox <= c < ox + n then Over(cells[Index(bufW, c, r)], PixelAt(thumb, c - ox, iy))
        else cells[Index(bufW, c, r)]
    decreases n
  {
    if n > 0 {
      BlitRowCellsAt(cells, bufW, bufH, thumb, ox, oy, iy, n - 1);
      var px, py := ox + (n - 1), oy + iy;
      forall c: nat, r: nat | c < bufW && Index(bufW, c, r) < |cells|
        ensures BlitRowCells(cells, bufW, bufH, thumb, ox, oy, iy, n)[Index(bufW, c, r)] ==
          if r == py && ox <= c < ox + n then Over(cells[Index(bufW, c, r)], PixelAt(thumb, c - ox, iy))
          else cells[Index(bufW, c, r)]
      {
        if px < bufW && Index(bufW, c, r) == Index(bufW, px, py) {
          IndexInjective(bufW, c, r, px, py);
        }
      }
    }
  }

  /** Once a pixel of the row falls past the right edge, so do the rest. */
  lemma {:induction false} BlitRowPastEdge(cells: seq<Word>, bufW: nat, bufH: nat, thumb: RgbaImage, ox: nat, oy: nat, iy: nat, ix: nat, n: nat)
    requires Wf(thumb) && iy < thumb.height && ix <= n <= thumb.width && oy + iy < bufH && |cells| == bufW * bufH
    requires ox + ix >= bufW
    ensures BlitRowCells(cells, bufW, bufH, thumb, ox, oy, iy, n) == BlitRowCells(cells, bufW, bufH, thumb, ox, oy, iy, ix)
    decreases n
  {
    if n > ix {
      BlitRowPastEdge(cells, bufW, bufH, thumb, ox, oy, iy, ix, n - 1);
    }
  }

  /** Once a row falls below the bottom edge, so do the rest. */
  lemma {:induction false} BlitRowsPastEdge(cells: seq<Word>, bufW: nat, bufH: nat, thumb: RgbaImage, ox: nat, oy: nat, iy: nat, m: nat)
    requires Wf(thumb) && iy <= m <= thumb.height && |cells| == bufW * bufH
    requires oy + iy >= bufH
    ensures BlitRowsCells(cells, bufW, bufH, thumb, ox, oy, m) == BlitRowsCells(cells, bufW, bufH, thumb, ox, oy, iy)
    decreases m
  {
    if m > iy {
      BlitRowsPastEdge(cells, bufW, bufH, thumb, ox, oy, iy, m - 1);
    }
  }

  /** Drawing the whole thumbnail blends every covered cell of the buffer
      over the value it held and leaves every other cell. */
  lemma {:induction false} BlitRowsCellsAt(cells: seq<Word>, bufW: nat, bufH: nat, thumb: RgbaImage, ox: nat, oy: nat, m: nat)
    requires Wf(thumb) && m <= thumb.height && |cells| == bufW * bufH
    ensures forall c: nat, r: nat :: c < bufW && Index(bufW, c, r) < |cells| ==>
      BlitRowsCells(cells, bufW, bufH, thumb, ox, oy, m)[Index(bufW, c, r)] ==
        if r < oy + m then Blitted(cells[Index(bufW, c, r)], thumb, ox, oy, c, r) else cells[Index(bufW, c, r)]
    decreases m
  {
    if m > 0 {
      BlitRowsCellsAt(cells, bufW, bufH, thumb, ox, oy, m - 1);
      var prev := BlitRowsCells(cells, bufW, bufH, thumb, ox, oy, m - 1);
      forall c: nat, r: nat | c < bufW && Index(bufW, c, r) < |cells| ensures r < bufH {
        RowOfIndex(bufW, bufH, c, r);
      }
      if oy + (m - 1) < bufH {
        BlitRowCellsAt(prev, bufW, bufH, thumb, ox, oy, m - 1, thumb.width);
      }
    }
  }

  /** `blit_thumbnail`: the thumbnail centred in the `cellW * cellH` cell whose
      corner is (dx, dy), drawn over what the buffer holds and clipped to it. */
  method BlitThumbnail(buf: array<Word>, bufW: nat, bufH: nat, thumb: RgbaImage,
                       dx: nat, dy: nat, cellW: nat, cellH: nat)
    requires Wf(thumb) && buf.Length == bufW * bufH
    modifies buf
    ensures buf[..] == BlitRowsCells(old(buf[..]), bufW, bufH, thumb, ThumbOrigin(dx, cellW, thumb.width), ThumbOrigin(dy, cellH, thumb.height), thumb.height)
  {
    var ox := ThumbOrigin(dx, cellW, thumb.width);
    var oy := ThumbOrigin(dy, cellH, thumb.height);
    ghost var orig := buf[..];
    var iy := 0;
    while iy < thumb.height
      invariant iy <= thumb.height
      invariant buf[..] == BlitRowsCells(orig, bufW, bufH, thumb, ox, oy, iy)
    {
      if oy + iy >= bufH {
        BlitRowsPastEdge(orig, bufW, bufH, thumb, ox, oy, iy, thumb.height);
        break;
      }
      BlitRow(buf, bufW, bufH, thumb, ox, oy, iy);
      iy := iy + 1;
    }
  }

  /** Every buffer cell after `blit_thumbnail` is the thumbnail pixel over
      it where the centred thumbnail covers it, and unchanged elsewhere. */
  lemma BlitThumbnailCells(cells: seq<Word>, bufW: nat, bufH: nat, thumb: RgbaImage, dx: nat, dy: nat, cellW: nat, cellH: nat)
    requires Wf(thumb) && |cells| == bufW * bufH
    ensures forall c: nat, r: nat :: c < bufW && Index(bufW, c, r) < |cells| ==>
      BlitRowsCells(cells, bufW, bufH, thumb, ThumbOrigin(dx, cellW, thumb.width), ThumbOrigin(dy, cellH, thumb.height), thumb.height)[Index(bufW, c, r)] ==
        Blitted(cells[Index(bufW, c, r)], thumb, ThumbOrigin(dx, cellW, thumb.width), ThumbOrigin(dy, cellH, thumb.height), c, r)
  {
    BlitRowsCellsAt(cells, bufW, bufH, thumb, ThumbOrigin(dx, cellW, thumb.width), ThumbOrigin(dy, cellH, thumb.height), thumb.height);
  }

  /** The inner loop of `blit_thumbnail`: thumbnail row `iy` over buffer row
      `oy + iy`, stopping at the buffer's right edge. */
  method BlitRow(buf: array<Word>, bufW: nat, bufH: nat, thumb: RgbaImage, ox: nat, oy: nat, iy: nat)
    requires Wf(thumb) && iy < thumb.height && buf.Length == bufW * bufH && oy + iy < bufH
    modifies buf
    ensures buf[..] == BlitRowCells(old(buf[..]), bufW, bufH, thumb, ox, oy, iy, thumb.width)
  {
    ghost var orig := buf[..];
    var py := oy + iy;
    var ix := 0;
    while ix < thumb.width
      invariant ix <= thumb.width
      invariant buf[..] == BlitRowCells(orig, bufW, bufH, thumb, ox, oy, iy, ix)
    {
      var px := ox + ix;
      if px >= bufW {
        BlitRowPastEdge(orig, bufW, bufH, thumb, ox, oy, iy, ix, thumb.width);
        break;
      }
      IndexBound(bufW, bufH, px, py);
      var existing := buf[Index(bufW, px, py)];
      buf[Index(bufW, px, py)] := Over(existing, PixelAt(thumb, ix, iy));
      ix := ix + 1;
    }
  }
}
