/** The Rust side of GIF decoding (src/image_loader.rs): libgif hands over the
    logical screen size, an optional global colour map and the saved images,
    each with its position, optional local colour map, raster of palette
    indices and graphics-control timing and transparency. Every usable image
    is composited onto one persistent canvas and the canvas is snapshotted as
    a frame. */
module Gif {
  import opened Base
  import opened Grid
  import opened Pixels

  datatype Rgb = Rgb(red: Byte, green: Byte, blue: Byte)

  /** One `SavedImage` with its graphics control block. */
  datatype SavedImage = SavedImage(
    left: nat, top: nat, width: nat, height: nat,
    colorMap: Option<seq<Rgb>>,
    raster: Option<seq<Byte>>,
    delayTime: nat,
    transparent: int)

  /** What `DGifSlurp` produced. */
  datatype GifFile = GifFile(width: nat, height: nat, colorMap: Option<seq<Rgb>>, images: seq<SavedImage>)

  /** What libgif guarantees: 16-bit sizes and positions, and a raster of
      exactly width * height indices when there is one. */
  predicate WfSaved(img: SavedImage)
  {
    img.left < U16_LIMIT && img.top < U16_LIMIT && img.width < U16_LIMIT && img.height < U16_LIMIT &&
    img.delayTime < U16_LIMIT &&
    (img.raster.Some? ==> |img.raster.value| == img.width * img.height)
  }

  predicate AllWfSaved(images: seq<SavedImage>)
  {
    forall i :: 0 <= i < |images| ==> WfSaved(images[i])
  }

  predicate WfGif(gif: GifFile)
  {
    gif.width < U16_LIMIT && gif.height < U16_LIMIT && AllWfSaved(gif.images)
  }

  datatype GifError = Empty | CanvasTooLarge | NoFrames

  /** Display time of a frame in milliseconds: hundredths of a second, at least 10 ms. */
  function DelayMs(delayTime: nat): (ms: nat)
    ensures ms >= 10
    ensures delayTime >= 1 ==> ms == 10 * delayTime
    ensures delayTime == 0 ==> ms == 10
  {
    if delayTime * 10 > 10 then delayTime * 10 else 10
  }

  // ---------------------------------------------------------------------
  // Compositing one image
  // ---------------------------------------------------------------------

  /** The colour image `img` paints at canvas position (x, y), or None when it
      leaves that position alone: outside the image, transparent index, or an
      index past the end of the palette. */
  function Painted(img: SavedImage, palette: seq<Rgb>, x: nat, y: nat): (px: Option<seq<Byte>>)
    requires WfSaved(img) && img.raster.Some?
    ensures px.Some? ==> |px.value| == 4 && px.value[3] == 255
  {
    if x < img.left || y < img.top || x - img.left >= img.width || y - img.top >= img.height then None
    else
      IndexBound(img.width, img.height, x - img.left, y - img.top);
      var idx := img.raster.value[Index(img.width, x - img.left, y - img.top)];
      if idx == img.transparent then None
      else if idx < |palette| then
        var c := palette[idx];
        Some([c.red, c.green, c.blue, 255])
      else None
  }

  /** `after` is `before` with `img` composited onto it. */
  ghost predicate IsComposite(before: RgbaImage, img: SavedImage, palette: seq<Rgb>, after: RgbaImage)
    requires Wf(before) && WfSaved(img) && img.raster.Some?
  {
    Wf(after) && after.width == before.width && after.height == before.height &&
    forall x: nat, y: nat :: x < before.width && y < before.height ==>
      PixelAt(after, x, y) ==
        (match Painted(img, palette, x, y) case Some(px) => px case None => PixelAt(before, x, y))
  }

  /** Raster position (col, row) has been visited once the loop is past it. */
  predicate Visited(col: nat, row: nat, curCol: nat, curRow: nat)
  {
    row < curRow || (row == curRow && col < curCol)
  }

  /** The value canvas position (x, y) has partway through the loop. */
  ghost function Partial(before: RgbaImage, img: SavedImage, palette: seq<Rgb>, x: nat, y: nat, curCol: nat, curRow: nat): seq<Byte>
    requires Wf(before) && WfSaved(img) && img.raster.Some? && x < before.width && y < before.height
  {
    if x >= img.left && y >= img.top && Visited(x - img.left, y - img.top, curCol, curRow) then
      match Painted(img, palette, x, y) case Some(px) => px case None => PixelAt(before, x, y)
    else PixelAt(before, x, y)
  }

  /** The palette-mapping loop of `load_gif` for one image. */
  method CompositeFrame(canvas: array<Byte>, cw: nat, ch: nat, img: SavedImage, palette: seq<Rgb>)
    requires Wf(RgbaImage(canvas[..], cw, ch)) && WfSaved(img) && img.raster.Some?
    modifies canvas
    ensures IsComposite(RgbaImage(old(canvas[..]), cw, ch), img, palette, RgbaImage(canvas[..], cw, ch))
  {
    ghost var before := RgbaImage(canvas[..], cw, ch);
    var row := 0;
    while row < img.height
      invariant 0 <= row <= img.height
      invariant Wf(RgbaImage(canvas[..], cw, ch))
      invariant forall x: nat, y: nat :: x < cw && y < ch ==>
        PixelAt(RgbaImage(canvas[..], cw, ch), x, y) == Partial(before, img, palette, x, y, 0, row)
    {
      CompositeRow(canvas, cw, ch, img, palette, row, before);
      row := row + 1;
    }
    forall x: nat, y: nat | x < cw && y < ch
      ensures PixelAt(RgbaImage(canvas[..], cw, ch), x, y) ==
        (match Painted(img, palette, x, y) case Some(px) => px case None => PixelAt(before, x, y))
    {
      assert PixelAt(RgbaImage(canvas[..], cw, ch), x, y) == Partial(before, img, palette, x, y, 0, img.height);
    }
  }

  /** The inner loop of the palette mapping: raster row `row` onto the canvas. */
  method CompositeRow(canvas: array<Byte>, cw: nat, ch: nat, img: SavedImage, palette: seq<Rgb>, row: nat, ghost before: RgbaImage)
    requires Wf(before) && before.width == cw && before.height == ch
    requires WfSaved(img) && img.raster.Some? && row < img.height
    requires Wf(RgbaImage(canvas[..], cw, ch))
    requires forall x: nat, y: nat :: x < cw && y < ch ==>
      PixelAt(RgbaImage(canvas[..], cw, ch), x, y) == Partial(before, img, palette, x, y, 0, row)
    modifies canvas
    ensures Wf(RgbaImage(canvas[..], cw, ch))
    ensures forall x: nat, y: nat :: x < cw && y < ch ==>
      PixelAt(RgbaImage(canvas[..], cw, ch), x, y) == Partial(before, img, palette, x, y, 0, row + 1)
  {
    var fw, fh, fx, fy := img.width, img.height, img.left, img.top;
    var raster := img.raster.value;
    var col := 0;
    while col < fw
      invariant 0 <= col <= fw
      invariant Wf(RgbaImage(canvas[..], cw, ch))
      invariant forall x: nat, y: nat :: x < cw && y < ch ==>
        PixelAt(RgbaImage(canvas[..], cw, ch), x, y) == Partial(before, img, palette, x, y, col, row)
    {
      IndexBound(fw, fh, col, row);
      var pixelIdx := raster[row * fw + col];
      var dx, dy := fx + col, fy + row;
      ghost var prev := canvas[..];
      if dx >= cw || dy >= ch {
        // off the canvas
      } else if pixelIdx == img.transparent {
        // transparent: the canvas shows through
      } else if pixelIdx < |palette| {
        var c := palette[pixelIdx];
        SetPixel(canvas, cw, ch, dx, dy, [c.red, c.green, c.blue, 255]);
      }
      forall x: nat, y: nat | x < cw && y < ch
        ensures PixelAt(RgbaImage(canvas[..], cw, ch), x, y) == Partial(before, img, palette, x, y, col + 1, row)
      {
        PartialAdvance(before, img, palette, x, y, col, row);
        assert PixelAt(RgbaImage(prev, cw, ch), x, y) == Partial(before, img, palette, x, y, col, row);
      }
      col := col + 1;
    }
    forall x: nat, y: nat | x < cw && y < ch
      ensures Partial(before, img, palette, x, y, col, row) == Partial(before, img, palette, x, y, 0, row + 1)
    {
    }
  }

  /** Moving the loop one raster position on changes only the canvas
      position that raster position maps to. */
  lemma PartialAdvance(before: RgbaImage, img: SavedImage, palette: seq<Rgb>, x: nat, y: nat, col: nat, row: nat)
    requires Wf(before) && WfSaved(img) && img.raster.Some? && x < before.width && y < before.height
    requires col < img.width && row < img.height
    ensures Partial(before, img, palette, x, y, col + 1, row) ==
      if x == img.left + col && y == img.top + row then
        (match Painted(img, palette, x, y) case Some(px) => px case None => PixelAt(before, x, y))
      else Partial(before, img, palette, x, y, col, row)
  {
  }

  /** Compositing the same image twice paints nothing new. */
  lemma CompositeIdempotent(a: RgbaImage, img: SavedImage, palette: seq<Rgb>, b: RgbaImage, c: RgbaImage)
    requires Wf(a) && WfSaved(img) && img.raster.Some?
    requires IsComposite(a, img, palette, b) && IsComposite(b, img, palette, c)
    ensures c == b
  {
    forall x: nat, y: nat | x < b.width && y < b.height
      ensures PixelAt(c, x, y) == PixelAt(b, x, y)
    {
      assert PixelAt(b, x, y) == (match Painted(img, palette, x, y) case Some(px) => px case None => PixelAt(a, x, y));
    }
    PixelExtensionality(c, b);
  }

  /** An image whose every index is transparent or outside the palette leaves
      the canvas as it was. */
  lemma InvisibleImageKeepsCanvas(a: RgbaImage, img: SavedImage, palette: seq<Rgb>, b: RgbaImage)
    requires Wf(a) && WfSaved(img) && img.raster.Some?
    requires forall i :: 0 <= i < |img.raster.value| ==> img.raster.value[i] == img.transparent || img.raster.value[i] >= |palette|
    requires IsComposite(a, img, palette, b)
    ensures b == a
  {
    forall x: nat, y: nat | x < a.width && y < a.height
      ensures PixelAt(b, x, y) == PixelAt(a, x, y)
    {
      if x >= img.left && y >= img.top && x - img.left < img.width && y - img.top < img.height {
        IndexBound(img.width, img.height, x - img.left, y - img.top);
        var i := Index(img.width, x - img.left, y - img.top);
        assert img.raster.value[i] == img.transparent || img.raster.value[i] >= |palette|;
      }
    }
    PixelExtensionality(b, a);
  }

  // ---------------------------------------------------------------------
  // The frame loop
  // ---------------------------------------------------------------------

  /** The colour map an image is drawn with: its own, else the global one. */
  function PaletteOf(img: SavedImage, global: Option<seq<Rgb>>): (m: Option<seq<Rgb>>)
    ensures img.colorMap.Some? ==> m == img.colorMap
    ensures img.colorMap.None? ==> m == global
  {
    if img.colorMap.Some? then img.colorMap else global
  }

  /** The images that become frames, each with its palette: an image without
      a colour map or raster is skipped. */
  function Usable(images: seq<SavedImage>, global: Option<seq<Rgb>>): (u: seq<(SavedImage, seq<Rgb>)>)
    requires AllWfSaved(images)
    ensures |u| <= |images|
    ensures Drawable(u)
  {
    if images == [] then []
    else
      var last := images[|images| - 1];
      assert AllWfSaved(images[..|images| - 1]);
      var init := Usable(images[..|images| - 1], global);
      var pal := PaletteOf(last, global);
      if pal.Some? && last.raster.Some? then init + [(last, pal.value)] else init
  }

  /** The canvas before the first image: transparent black. */
  function Blank(cw: nat, ch: nat): (img: RgbaImage)
    requires ValidateDimensions(cw, ch).Ok?
    ensures Wf(img) && img.width == cw && img.height == ch
    ensures forall i :: 0 <= i < |img.data| ==> img.data[i] == 0
  {
    ValidatedDimensionsFit(cw, ch);
    New(cw, ch)
  }

  /** Every entry can be composited. */
  predicate Drawable(u: seq<(SavedImage, seq<Rgb>)>)
  {
    forall k :: 0 <= k < |u| ==> WfSaved(u[k].0) && u[k].0.raster.Some?
  }

  /** `frames` are the snapshots the loop takes: frame k is frame k-1 (or the
      transparent black canvas) with usable image k composited on, shown for
      that image's delay. */
  ghost predicate FramesFollow(cw: nat, ch: nat, u: seq<(SavedImage, seq<Rgb>)>, frames: seq<(RgbaImage, nat)>)
  {
    ValidateDimensions(cw, ch).Ok? && |frames| == |u| &&
    forall k :: 0 <= k < |u| ==> Step(Before(cw, ch, frames, k), u[k], frames[k])
  }

  /** `frame` is `prev` with the usable image `entry` composited on, shown
      for that image's delay. */
  ghost predicate Step(prev: RgbaImage, entry: (SavedImage, seq<Rgb>), frame: (RgbaImage, nat))
  {
    WfSaved(entry.0) && entry.0.raster.Some? && Wf(prev) &&
    frame.1 == DelayMs(entry.0.delayTime) &&
    IsComposite(prev, entry.0, entry.1, frame.0)
  }

  /** The canvas frame `k` was painted on. */
  function Before(cw: nat, ch: nat, frames: seq<(RgbaImage, nat)>, k: nat): RgbaImage
    requires ValidateDimensions(cw, ch).Ok? && k <= |frames|
  {
    if k == 0 then Blank(cw, ch) else frames[k - 1].0
  }

  /** One more usable image extends the frame list by one snapshot. */
  lemma FramesFollowExtend(cw: nat, ch: nat, u: seq<(SavedImage, seq<Rgb>)>, frames: seq<(RgbaImage, nat)>,
                           next: (SavedImage, seq<Rgb>), img: RgbaImage, delay: nat)
    requires WfSaved(next.0) && next.0.raster.Some?
    requires FramesFollow(cw, ch, u, frames)
    requires Wf(Before(cw, ch, frames, |frames|))
    requires IsComposite(Before(cw, ch, frames, |frames|), next.0, next.1, img)
    requires delay == DelayMs(next.0.delayTime)
    ensures FramesFollow(cw, ch, u + [next], frames + [(img, delay)])
  {
    var u', f' := u + [next], frames + [(img, delay)];
    forall k | 0 <= k < |u'|
      ensures Step(Before(cw, ch, f', k), u'[k], f'[k])
    {
      assert Before(cw, ch, f', k) == Before(cw, ch, frames, k);
      if k < |u| {
        assert u'[k] == u[k] && f'[k] == frames[k];
      }
    }
  }

  /** Looking at one more image adds it to the usable ones exactly when it
      has a colour map and a raster. */
  lemma UsableStep(images: seq<SavedImage>, i: nat, global: Option<seq<Rgb>>)
    requires AllWfSaved(images) && i < |images|
    ensures AllWfSaved(images[..i]) && AllWfSaved(images[..i + 1])
    ensures Usable(images[..i + 1], global) ==
      Usable(images[..i], global) +
      (if PaletteOf(images[i], global).Some? && images[i].raster.Some?
       then [(images[i], PaletteOf(images[i], global).value)] else [])
  {
    assert images[..i + 1][..i] == images[..i];
  }

  /** `load_gif` after `DGifSlurp` succeeded. */
  method LoadGif(gif: GifFile) returns (r: Result<LoadedImage, GifError>)
    requires WfGif(gif)
    ensures r == Err(Empty) <==> |gif.images| == 0 || gif.width == 0 || gif.height == 0
    ensures r == Err(CanvasTooLarge) <==>
      |gif.images| > 0 && gif.width > 0 && gif.height > 0 && gif.width * gif.height > MAX_PIXEL_COUNT
    ensures r.Ok? ==> WfLoaded(r.value)
    ensures r.Ok? || r == Err(Empty) || r == Err(CanvasTooLarge) || r == Err(NoFrames)
    ensures r == Err(NoFrames) <==> ValidateDimensions(gif.width, gif.height).Ok? && |gif.images| > 0 && |Usable(gif.images, gif.colorMap)| == 0
    ensures r.Ok? ==> (r.value.Static? <==> |Usable(gif.images, gif.colorMap)| == 1)
    ensures r.Ok? ==> ValidateDimensions(gif.width, gif.height).Ok?
    ensures r.Ok? && r.value.Static? ==>
      IsComposite(Blank(gif.width, gif.height), Usable(gif.images, gif.colorMap)[0].0, Usable(gif.images, gif.colorMap)[0].1, r.value.img)
    ensures r.Ok? && r.value.Animated? ==>
      FramesFollow(gif.width, gif.height, Usable(gif.images, gif.colorMap), r.value.frames)
  {
    var cw, ch := gif.width, gif.height;
    if |gif.images| == 0 || cw == 0 || ch == 0 {
      return Err(Empty);
    }
    if cw * ch > MAX_PIXEL_COUNT {
      return Err(CanvasTooLarge);
    }
    var frames := CompositeAll(gif);
    if |frames| == 0 {
      return Err(NoFrames);
    }
    if |frames| == 1 {
      return Ok(Static(frames[0].0));
    }
    r := Ok(Animated(frames));
  }

  /** The frame loop of `load_gif`: one canvas, composited and snapshotted
      for every usable image. */
  method CompositeAll(gif: GifFile) returns (frames: seq<(RgbaImage, nat)>)
    requires WfGif(gif) && ValidateDimensions(gif.width, gif.height).Ok?
    ensures FramesFollow(gif.width, gif.height, Usable(gif.images, gif.colorMap), frames)
  {
    var cw, ch := gif.width, gif.height;
    var canvas := NewCanvas(cw, ch);
    frames := [];
    var i := 0;
    while i < |gif.images|
      invariant 0 <= i <= |gif.images|
      invariant AllWfSaved(gif.images[..i])
      invariant FramesFollow(cw, ch, Usable(gif.images[..i], gif.colorMap), frames)
      invariant RgbaImage(canvas[..], cw, ch) == Before(cw, ch, frames, |frames|)
    {
      frames := NextImage(canvas, gif, i, frames);
      i := i + 1;
    }
    assert gif.images[..i] == gif.images;
  }

  /** The transparent canvas `load_gif` starts from. */
  method NewCanvas(cw: nat, ch: nat) returns (canvas: array<Byte>)
    requires ValidateDimensions(cw, ch).Ok?
    ensures fresh(canvas)
    ensures RgbaImage(canvas[..], cw, ch) == Blank(cw, ch)
  {
    ValidatedDimensionsFit(cw, ch);
    canvas := new Byte[cw * ch * 4](_ => 0);
    assert RgbaImage(canvas[..], cw, ch) == Blank(cw, ch);
  }

  /** One turn of the frame loop: image `i` is skipped, or composited onto the
      canvas and the canvas snapshotted. */
  method NextImage(canvas: array<Byte>, gif: GifFile, i: nat, frames: seq<(RgbaImage, nat)>)
    returns (frames': seq<(RgbaImage, nat)>)
    requires WfGif(gif) && ValidateDimensions(gif.width, gif.height).Ok? && i < |gif.images|
    requires FramesFollow(gif.width, gif.height, Usable(gif.images[..i], gif.colorMap), frames)
    requires RgbaImage(canvas[..], gif.width, gif.height) == Before(gif.width, gif.height, frames, |frames|)
    modifies canvas
    ensures FramesFollow(gif.width, gif.height, Usable(gif.images[..i + 1], gif.colorMap), frames')
    ensures RgbaImage(canvas[..], gif.width, gif.height) == Before(gif.width, gif.height, frames', |frames'|)
  {
    var cw, ch := gif.width, gif.height;
    var saved := gif.images[i];
    UsableStep(gif.images, i, gif.colorMap);
    var cmap := if saved.colorMap.Some? then saved.colorMap else gif.colorMap;
    if cmap.None? || saved.raster.None? {
      return frames;
    }
    var delayMs := if saved.delayTime * 10 > 10 then saved.delayTime * 10 else 10;
    assert Wf(RgbaImage(canvas[..], cw, ch)) by {
      if |frames| > 0 {
        assert Step(Before(cw, ch, frames, |frames| - 1), Usable(gif.images[..i], gif.colorMap)[|frames| - 1], frames[|frames| - 1]);
      }
    }
    CompositeFrame(canvas, cw, ch, saved, cmap.value);
    var img := RgbaImage(canvas[..], cw, ch);
    FramesFollowExtend(cw, ch, Usable(gif.images[..i], gif.colorMap), frames, (saved, cmap.value), img, delayMs);
    frames' := frames + [(img, delayMs)];
  }
}
