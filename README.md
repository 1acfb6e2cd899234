# rimg: a verified model of the decode-and-normalise core

rimg is an image viewer for Wayland. This project models its core in
Dafny: the part that turns the bytes of an image file into a uniform RGBA
pixel buffer, corrects its orientation and extracts its EXIF metadata, plus
the small integer cores around it. Those are the alpha-blending painters,
the status-bar text and geometry, the key mapping, the thumbnail grid and the
application state that ties the image list to the decoded-image cache. The
model proves properties of each.

The modules follow the source:

- `Base` — bytes, `Option`/`Result`, endian reads and decimal text.
- `Grid` — row-major pixel index arithmetic.
- `Pixels` — `RgbaImage`, `LoadedImage` and the dimension guards.
- `Dispatch` — extension-based format dispatch.
- `Bmp` — the hand-written BMP decoder, with an encoder as its inverse.
- `Gif` — palette compositing of GIF frames.
- `Conversions` — libtiff ABGR words, Cairo premultiplied BGRA and the JPEG scale pick.
- `Orientation` — the eight EXIF orientation transforms.
- `TagFormat` — the integer tag formatters.
- `Tiff` — the JPEG APP1 scan, the TIFF header and the IFD walker.
- `Render` — `src/render.rs`.
- `Status` — `src/status.rs`.
- `Input` — `src/input.rs`.
- `GalleryGrid` — `src/gallery.rs`, the class `Gallery`.
- `Application` — `src/app.rs`, the class `App`.

Code that computes values is modelled as functions over datatypes and
sequences. Code that fills buffers or updates fields in loops is modelled as
methods over arrays and class fields. Each such method is proved against a
specification function whose properties are proved as lemmas.

Decoded images are values: a decoder method fills a local array and returns
the `RgbaImage` built from it. Integers are unbounded; where the source's
`u32`/`u64` widths matter, the contracts state them as bounds.

## Model

| member | source | states |
|---|---|---|
| Base.ReadU16 | src/image_loader.rs:1249-1258 | a 16-bit read at `off` succeeds exactly when two bytes remain; its value is below 2^16 and its low and high byte are the bytes at `off` and `off+1` in the order the byte-order flag selects |
| Base.ReadU32 | src/image_loader.rs:1260-1270 | a 32-bit read succeeds exactly when four bytes remain; its value is below 2^32 and its four base-256 digits, lowest first, are the four bytes read in order (little-endian) or in reverse order (big-endian) |
| Base.ReadI32 | src/image_loader.rs:1637-1647 | a signed 32-bit read succeeds exactly when four bytes remain and is the two's-complement reading of the unsigned 32-bit value, within the `i32` range |
| Base.AsI32 | src/image_loader.rs:733-734 | reinterpreting a 32-bit pattern as `i32` gives a value in the `i32` range congruent to the pattern modulo 2^32 |
| Base.NatToString | src/image_loader.rs:1760 | `{}` formatting of an unsigned value is a non-empty digit string, one digit long exactly for values below 10 |
| Base.IntToString | src/image_loader.rs:1823 | `{}` formatting of a signed value is the digits for non-negative values and a minus sign followed by digits otherwise |
| Base.ParseU64 | src/app.rs:888-893 | `str::parse::<u64>` accepts exactly an optional `+` followed by one or more digits whose value is below 2^64, leading zeros included, and then gives the digits' value; the empty string, a lone `+`, any other character and an overflow are refused |
| Base.DigitsValueOfNatToString | src/image_loader.rs:1760 | the digits that decimal formatting writes read back as the formatted number |
| Base.ParseU64OfNatToString | src/app.rs:888-893 | parsing the decimal text of any `u64` gives that value back |
| Pixels.New | src/image_loader.rs:31-41 | `RgbaImage::new` builds a well-formed buffer of the requested size whose bytes are all zero |
| Pixels.FromRaw | src/image_loader.rs:43-56 | `from_raw` succeeds exactly when the data holds `width*height*4` bytes and that product fits in `usize`, and then keeps width, height and data unchanged and well-formed |
| Pixels.FirstFrame | src/image_loader.rs:73-80 | `first_frame` is the static image or the first animation frame, and it is well-formed whenever the decode result is |
| Pixels.ValidateDimensions | src/image_loader.rs:98-113 | the guard is Ok iff both sides are non-zero and `w*h` is at most 256·1024·1024; a too-large count is reported before a zero side |
| Pixels.ValidatedDimensionsFit | src/image_loader.rs:98-113 | dimensions the guard accepts fit in `u32` and give a byte count `w*h*4` that fits in `usize` |
| Pixels.SetPixel | src/image_loader.rs:1321-1326 | storing four bytes at pixel (x, y) sets exactly that pixel and leaves every other pixel of the buffer as it was |
| Dispatch.AsciiLower | src/image_loader.rs:152-154 | on ASCII input, `ascii_lower` keeps the length and maps every character through ASCII lower-casing (letters A-Z to a-z, everything else unchanged) |
| Dispatch.AsciiLowerIdempotent | src/image_loader.rs:152-154 | lowering twice is lowering once, and no ASCII capital survives |
| Dispatch.IsSupportedImage | src/image_loader.rs:156-161 | a path is picked up iff it has a UTF-8 extension whose lowered form is in the supported list |
| Dispatch.LoadFormat | src/image_loader.rs:164-178 | an unknown extension (or none, read as "") is refused with "Unsupported format: " and the lowered extension |
| Dispatch.LoadFormatAgreesWithScan | src/image_loader.rs:156-178 | `load_image` finds a decoder exactly for the files `is_supported_image` accepts |
| Dispatch.LoadFormatIgnoresCase | src/image_loader.rs:164-178 | the decoder chosen for an extension is the one chosen for its lower-case form |
| Dispatch.ReadFileLimited | src/image_loader.rs:83-95 | a file above 512 MiB is refused before it is read; any other file yields what the read yields |
| Bmp.CheckBmp | src/image_loader.rs:725-760 | header checks in source order, each error exactly when every earlier check passed and its own fails: fewer than 54 bytes is too small; no "BM" is not-a-BMP; width (i32 at byte 18) not positive or height (i32 at byte 22) zero is invalid dimensions; `validate_dimensions` on width and the absolute height fails with its own error; pixel offset (u32 at byte 10) plus row size times rows past the end is truncation; then depth (u16 at byte 28) 24 or 32 succeeds, 1, 4 or 8 is unsupported and any other is unknown, both carrying the depth; success carries the offset, depth, width and height read from those bytes, bottom-up exactly for positive height |
| Bmp.SourceInBounds | src/image_loader.rs:754-760 | once the truncation check passes, every byte the 24- and 32-bit pixel loops read lies inside the file |
| Bmp.BmpPixel | src/image_loader.rs:771-796 | an output pixel is four bytes taken from the stored pixel B,G,R(,A) as R,G,B,A |
| Bmp.LoadBmp | src/image_loader.rs:722-807 | the decoder fails exactly when the header checks fail, with their error; otherwise it returns a static, well-formed image whose every pixel (x, y) is the reordered stored pixel of row `h-1-y` (bottom-up) or `y` (top-down) |
| Bmp.DecodeRow | src/image_loader.rs:773-784 | one pass of the inner loop fills output row `y` with its reordered stored pixels and leaves every other row unchanged |
| Bmp.EncodeBmp32 | src/image_loader.rs:722-807 | a reference encoder: a 54-byte header followed by the pixels in BGRA order from the top |
| Bmp.EncodeBmp32Accepted | src/image_loader.rs:725-760 | the encoder's file passes every header check as a top-down 32-bit file whose pixels start at byte 54 |
| Bmp.EncodedPixelReads | src/image_loader.rs:786-796 | the decoder reads pixel (x, y) of an encoded file back as pixel (x, y) of the original image |
| Bmp.BmpRoundTrip | src/image_loader.rs:722-807 | decoding the encoding of any image the guard accepts gives back that image |
| Orientation.FlipH | src/image_loader.rs:1360-1371 | `flip_h` returns an image of the same size in which pixel (x, y) of the input sits at (w-1-x, y) |
| Orientation.FlipHRow | src/image_loader.rs:1364-1368 | one pass of the inner loop of `flip_h` fills row `y` with the mirrored input row and leaves every other row unchanged |
| Orientation.FlipV | src/image_loader.rs:1990-2001 | `flip_v` returns an image of the same size in which pixel (x, y) of the input sits at (x, h-1-y) |
| Orientation.CopyRow | src/image_loader.rs:1993-1998 | the row slice copy of `flip_v` makes destination row `dy` equal to source row `sy` and leaves every other row unchanged |
| Orientation.Rotate180 | src/image_loader.rs:1332-1343 | `rotate_180` returns an image of the same size in which pixel (x, y) of the input sits at (w-1-x, h-1-y) |
| Orientation.Rotate180Row | src/image_loader.rs:1335-1340 | one pass of the inner loop of `rotate_180` fills row `h-1-y` with input row `y` mirrored and leaves every other row unchanged |
| Orientation.Rotate90 | src/image_loader.rs:1317-1330 | `rotate_90` returns an `h`-wide, `w`-high image in which pixel (x, y) of the input sits at (h-1-y, x) |
| Orientation.Rotate90Row | src/image_loader.rs:1320-1327 | one pass of the inner loop of `rotate_90` fills column `h-1-y` with input row `y` and leaves every other column unchanged |
| Orientation.Rotate270 | src/image_loader.rs:1345-1358 | `rotate_270` returns an `h`-wide, `w`-high image in which pixel (x, y) of the input sits at (y, w-1-x) |
| Orientation.Rotate270Row | src/image_loader.rs:1348-1355 | one pass of the inner loop of `rotate_270` fills column `y` with input row `y` and leaves every other column unchanged |
| Orientation.ApplyOrientation | src/image_loader.rs:1304-1315 | the result stands in the relation orientation `o` asks for: 2 mirror, 3 half turn, 4 vertical mirror, 5 transpose, 6 quarter turn clockwise, 7 anti-diagonal mirror, 8 quarter turn counter-clockwise; any other value returns the input unchanged |
| Orientation.Rotate90ThenFlipH | src/image_loader.rs:1309 | orientation 5, `flip_h(rotate_90(img))`, mirrors the image along its main diagonal: (x, y) goes to (y, x) |
| Orientation.Rotate270ThenFlipH | src/image_loader.rs:1311 | orientation 7, `flip_h(rotate_270(img))`, mirrors the image along its anti-diagonal |
| Orientation.FlipHInvolution | src/image_loader.rs:1360-1371 | `flip_h` applied twice gives back the original image |
| Orientation.FlipVInvolution | src/image_loader.rs:1990-2001 | `flip_v` applied twice gives back the original image |
| Orientation.Rotate180Involution | src/image_loader.rs:1332-1343 | `rotate_180` applied twice gives back the original image |
| Orientation.Rotate90ThenRotate270 | src/image_loader.rs:1317-1358 | `rotate_270` undoes `rotate_90` |
| Orientation.Rotate270ThenRotate90 | src/image_loader.rs:1317-1358 | `rotate_90` undoes `rotate_270` |
| Orientation.Rotate90Twice | src/image_loader.rs:1317-1343 | two quarter turns clockwise are a half turn |
| Orientation.TransposeInvolution | src/image_loader.rs:1309 | the orientation-5 correction applied twice gives back the original image |
| Orientation.TransverseInvolution | src/image_loader.rs:1311 | the orientation-7 correction applied twice gives back the original image |
| Orientation.Inverse | src/image_loader.rs:1304-1315 | the orientation value that undoes `o`: 6 and 8 swap, every other value is its own inverse |
| Orientation.OrientationUndone | src/image_loader.rs:1304-1315 | correcting for `o` and then for its inverse gives back the original image, for every orientation value |
| Orientation.OrientedUnique | src/image_loader.rs:1304-1315 | each orientation relation determines its output completely, so the pixel relations are a full specification of the transforms |
| Gif.DelayMs | src/image_loader.rs:668 | a frame is shown for ten times its delay in milliseconds, and never less than 10 ms |
| Gif.Painted | src/image_loader.rs:671-696 | a raster position paints an opaque palette colour unless it lies off the image, holds the transparent index or an index past the palette, in which case the canvas shows through |
| Gif.CompositeFrame | src/image_loader.rs:671-698 | after the palette-mapping loop every canvas pixel is the colour the image paints there, or its old value where the image paints nothing (off canvas, transparent, index past the palette) |
| Gif.CompositeRow | src/image_loader.rs:672-697 | one pass of the column loop extends the composited region by one raster row and changes no other canvas position |
| Gif.PartialAdvance | src/image_loader.rs:672-697 | advancing the loop by one raster position changes only the canvas position that raster position maps to |
| Gif.CompositeIdempotent | src/image_loader.rs:671-698 | compositing the same image a second time changes nothing |
| Gif.InvisibleImageKeepsCanvas | src/image_loader.rs:683-685 | an image whose every index is transparent or past the palette leaves the canvas as it was |
| Gif.PaletteOf | src/image_loader.rs:644-648 | an image is drawn with its own colour map when it has one, otherwise with the global one |
| Gif.Usable | src/image_loader.rs:649-651 | the images that become frames are at most all of them, and each has a raster and a colour map |
| Gif.UsableStep | src/image_loader.rs:649-651 | looking at one more image adds it to the frame sources exactly when it has a colour map and a raster |
| Gif.Blank | src/image_loader.rs:633 | the canvas starts out transparent black at the logical screen size |
| Gif.FramesFollowExtend | src/image_loader.rs:700-705 | snapshotting the canvas after one more composited image extends the frame list by exactly that snapshot |
| Gif.LoadGif | src/image_loader.rs:609-714 | no images or a zero side gives the empty error; otherwise more than 256·1024·1024 pixels gives the too-large error; otherwise no usable image gives the no-frames error; exactly one usable image gives a static image composited on the blank canvas; more give an animation whose frame k is frame k-1 with image k composited, for that image's delay |
| Gif.CompositeAll | src/image_loader.rs:635-706 | the frame loop produces one snapshot per usable image, each the previous canvas with that image composited, shown for that image's delay |
| Gif.NewCanvas | src/image_loader.rs:624-633 | the canvas is a fresh buffer holding the blank canvas |
| Gif.NextImage | src/image_loader.rs:636-706 | one turn of the frame loop skips an image without colour map or raster, and otherwise composites it and appends the snapshot, keeping the canvas equal to the last frame |
| Conversions.WordBytesRoundTrip | src/image_loader.rs:890-897 | splitting a 32-bit word into its bytes, lowest first, and packing them again gives the word back, and the other way round |
| Conversions.AbgrToRgba | src/image_loader.rs:891-897 | the TIFF push loop yields four bytes per raster word, and the bytes of pixel i, read lowest first, pack back to word i exactly: R, G, B, A come from the lowest to the highest byte and nothing is lost |
| Conversions.StraightPixel | src/image_loader.rs:1078-1096 | a stored B, G, R, A pixel becomes R, G, B, A with alpha kept; alpha 0 gives all zeros, alpha 255 reorders without arithmetic, and any other alpha gives each colour channel un-premultiplied, `(c·255 + a/2)/a` capped at 255 |
| Conversions.UnpremultiplyRoundTrip | src/image_loader.rs:1089-1094 | for every channel a premultiplied surface can hold (at most alpha), un-premultiplying with rounding and premultiplying again restores the stored value, so no cap is hit and no channel is lost |
| Conversions.StraightPixelRoundTrip | src/image_loader.rs:1084-1096 | for every non-transparent pixel a premultiplied surface can hold, premultiplying each colour channel of the straight pixel gives back the stored channel, alpha 255 included |
| Conversions.UnpremultiplySurface | src/image_loader.rs:1075-1098 | the un-premultiply loop yields `4*width*height` bytes, every surface pixel it reads lies inside the surface, and output pixel (x, y) is the straight form of the surface pixel at row `y*stride` plus `4x` |
| Conversions.UnpremultiplyRow | src/image_loader.rs:1077-1097 | the inner loop yields `4*width` bytes whose pixel x is the straight form of surface pixel (x, y) |
| Conversions.StraightRow | src/image_loader.rs:1077-1097 | the converted prefix of a surface row holds four bytes per pixel converted so far |
| Conversions.StraightRowPixels | src/image_loader.rs:1077-1097 | pixel x of the converted row prefix is the straight form of surface pixel (x, y) |
| Conversions.SurfacePixel | src/image_loader.rs:1078-1083 | the straight RGBA value of surface pixel (x, y) is four bytes |
| Conversions.PickScale | src/image_loader.rs:1143-1159 | the scale picked is one of 1/8, 1/4, 1/2, 1; every smaller listed factor is too small in some direction; any factor but 1 gives both scaled sides at least the thumbnail size, and so does the pick whenever some listed factor does |
| Conversions.ScaledMonotone | src/image_loader.rs:1144-1149 | the listed factors give non-decreasing scaled sizes, so the first factor big enough is the smallest one that is |
| TagFormat.ShortName | src/image_loader.rs:1708-1761 | only Orientation, MeteringMode, Flash, ColorSpace, ExposureMode and WhiteBalance have names; a name exists exactly for Orientation 1..8, MeteringMode 0..6, every Flash value, ColorSpace 1 and 0xFFFF, ExposureMode 0..2 and WhiteBalance 0..1; a name never starts with a digit |
| TagFormat.FormatTagShort | src/image_loader.rs:1708-1762 | a value with a name prints that name; any other value, of a named tag (the `_` arms) or of any other tag, prints as its decimal value |
| TagFormat.FlashShowsOnlyBit0 | src/image_loader.rs:1734-1741 | the Flash text depends only on bit 0: "Flash fired" when it is set, "No flash" otherwise |
| TagFormat.TagShortDigitsReadBack | src/image_loader.rs:1708-1762 | a printed SHORT is either a name of an enumerated tag or digits that parse back to the value |
| TagFormat.FormatRational | src/image_loader.rs:1764-1805 | a zero denominator prints "0"; exposure time prints "0s" for a zero numerator, "1/" and `den/num` and "s" below one second, else the decimal quotient and "s"; FNumber prints "f/" and the decimal quotient; focal length the decimal quotient and "mm"; X/Y resolution the integer quotient and " dpi"; every other tag prints "n" when the denominator is 1, else "n/d" |
| TagFormat.ExposureFractionBrackets | src/image_loader.rs:1777-1780 | for an exposure below one second the printed `1/r` brackets the true time: 1/(r+1) < num/den <= 1/r |
| TagFormat.GenericRationalReadsBack | src/image_loader.rs:1796-1802 | for tags outside the special cases the text is exactly "n" when the denominator is 1 and "n/d" otherwise (decimal, no sign, no leading zeros), and it reads back as exactly the numerator and denominator |
| TagFormat.IndexOf | src/image_loader.rs:1796-1802 | the first position of a character in a string, or None when it does not occur |
| TagFormat.WholeReadsBack | src/image_loader.rs:1797-1799 | a printed whole number reads back with denominator 1 |
| TagFormat.FractionReadsBack | src/image_loader.rs:1800-1801 | a printed "n/d" reads back as n and d |
| TagFormat.SlashAfterDigits | src/image_loader.rs:1800-1801 | in "n/d" the first slash is the one after the digits of n |
| TagFormat.FormatSRational | src/image_loader.rs:1807-1829 | a zero denominator prints "0"; ExposureBias prints the quotient with a "+" exactly when it is non-negative, then " EV"; every other tag prints the signed numerator when the denominator is 1, else "n/d" with both signed |
| TagFormat.SRationalAgreesWithRational | src/image_loader.rs:1764-1829 | on non-negative values of a generic tag the signed formatter prints what the unsigned one prints |
| Tiff.ScanFrom | src/image_loader.rs:1209-1231 | the marker scan stops with nothing at a non-0xFF byte or an SOS marker; a found offset lies just past an FF E1 marker, its two length bytes and the six bytes "Exif\0\0", inside the data |
| Tiff.FindExif | src/image_loader.rs:1203-1233 | nothing is found unless the data opens with SOI (FF D8); a found TIFF offset is at least 12 and is preceded by "Exif\0\0" |
| Tiff.ScanForExif | src/image_loader.rs:1207-1233 | the marker loop returns exactly the TIFF offset the scan specification finds |
| Tiff.ScanStep | src/image_loader.rs:1210-1231 | one turn of the marker loop either ends with the scan's answer or moves strictly forward to a position from which the scan has the same answer, so the loop terminates |
| Tiff.ReadHeader | src/image_loader.rs:1241-1277 | a TIFF header is accepted iff it has eight bytes, byte order "II" or "MM" and magic 42 in that order; little-endian exactly for "II", and the IFD0 offset is the 32-bit value at byte 4 |
| Tiff.OrientationEntry | src/image_loader.rs:1285-1296 | the entry found is the first tagged 0x0112 among those below the count, all earlier entries fit and carry other tags; without a result no fitting entry below the count is tagged 0x0112 |
| Tiff.ParseTiffOrientation | src/image_loader.rs:1236-1298 | a result exists exactly when there is a valid header at the TIFF offset, an IFD0 count inside the data and an Orientation entry among the fitting IFD0 entries; it is then the 16-bit value at offset 8 of the first such entry |
| Tiff.ReadExifOrientation | src/image_loader.rs:1201-1234 | the orientation is read from the TIFF structure of the first Exif APP1 segment, and only from a stream that opens with SOI |
| Tiff.FirstNul | src/image_loader.rs:1668 | the position of the first NUL byte, or the length when there is none |
| Tiff.ShownChar | src/image_loader.rs:1671-1677 | a byte 0x20..0x7E is shown as itself and any other as '?' |
| Tiff.AsciiText | src/image_loader.rs:1662-1680 | an ASCII value is cut at its first NUL and every kept byte is shown as itself when printable and as '?' otherwise, so the text is printable |
| Tiff.ValueAt | src/image_loader.rs:1661-1705 | only types 2, 3, 4, 5 and 10 give a value; ASCII needs `count` bytes, SHORT two, LONG four and the rationals eight; ASCII is the cut text, SHORT the `format_tag_short` text, LONG the decimal value, RATIONAL the `format_rational` text of the two u32 words and SRATIONAL the `format_srational` text of the two i32 words |
| Tiff.ReadTagValue | src/image_loader.rs:1648-1659 | type 11 and above gives nothing; a value of at most four bytes is read inline at the value field, a longer one at the 32-bit offset stored there, and a missing offset gives nothing |
| Tiff.InlineValueWithinField | src/image_loader.rs:1653-1659 | only SHORT, LONG and ASCII values of at most four characters can sit inline |
| Tiff.Label | src/image_loader.rs:1594-1597 | a found name is a table row for the tag; no name means no row has that tag |
| Tiff.EntryEffect | src/image_loader.rs:1574-1603 | the Exif and GPS pointer tags only set their sub-IFD offsets and every such effect comes from a pointer tag; an emitted pair has a name from the table and a non-empty value |
| Tiff.ParseEntry | src/image_loader.rs:1562-1603 | one turn of the entry loop applies to the running tags and offsets exactly the effect of that entry |
| Tiff.ParseIfdTags | src/image_loader.rs:1519-1605 | the IFD loop leaves tags and offsets as its specification does: the entries below the count applied in order, up to the first entry that would overrun the data |
| Tiff.AppendsKnownTrans | src/image_loader.rs:1519-1605 | appending named, non-empty pairs twice is appending them once |
| Tiff.WalkAppendsKnown | src/image_loader.rs:1561-1604 | the entry walk keeps the earlier tags as a prefix and only appends pairs whose name is in the table and whose value is non-empty |
| Tiff.WalkKeepsOffsets | src/image_loader.rs:1577-1590 | an IFD without pointer entries leaves the Exif and GPS offsets as they were |
| Tiff.ParseAllExifTags | src/image_loader.rs:1412-1482 | a short buffer or an invalid header gives no tags; otherwise the tags are those of IFD0 followed by those of the Exif sub-IFD IFD0 points to |
| Tiff.IfdAppendsKnown | src/image_loader.rs:1519-1605 | one IFD keeps the earlier tags and appends only named pairs with non-empty values |
| Tiff.ExifTagsAreKnown | src/image_loader.rs:1412-1482 | every IFD0 pair has a name from the IFD0 table and every later pair a name from the Exif table, all with non-empty values, IFD0 pairs first |
| Tiff.ReadExifTags | src/image_loader.rs:1379-1410 | no tags without an Exif segment or without SOI; otherwise exactly the panel of the first Exif segment's TIFF structure |
| Render.PackChannels | src/render.rs:121-130 | a word with a clear top byte is the packing of its own three channels |
| Render.Pack | src/render.rs:122 | `(r << 16) \| (g << 8) \| b` always leaves the top byte clear |
| Render.PackRoundTrip | src/render.rs:122 | the red, green and blue channels of a packed word are the three bytes it was packed from |
| Render.PackSplits | src/render.rs:122 | the shifts and masks that read a packed word back give the bytes packed into it |
| Render.BlendFits | src/render.rs:227-229 | a blended channel `(s·a + d·(255−a))/255` fits in a byte |
| Render.BlendBetween | src/render.rs:124-131 | a blended channel lies between the source and destination channels; full opacity gives the source, zero opacity the destination |
| Render.Over | src/render.rs:121-131 | an opaque pixel replaces the word by its packed channels and a fully transparent one leaves the word as it was |
| Render.OverBetween | src/render.rs:123-131 | a partly transparent pixel gives, channel by channel, the blend of the pixel's channel over the word's, and clears the top byte |
| Render.SetCell | src/render.rs:153 | writing one cell of the buffer changes that cell and no other |
| Render.RowCellInBuffer | src/render.rs:146-153 | a cell of one of the buffer's whole rows lies inside the buffer |
| Render.FillRect | src/render.rs:144-156 | `fill_rect` gives `color` to exactly the cells at column `x..x+w` and row `y..y+h` (saturating) that lie within the buffer width and its whole rows, and leaves every other cell as it was |
| Render.Darken | src/render.rs:175-182 | the black overlay never raises a channel, clears the top byte, and at alpha 0 leaves a word with a clear top byte unchanged |
| Render.DrawOverlay | src/render.rs:160-186 | `draw_overlay` darkens exactly the cells `fill_rect` would fill and leaves all others unchanged; a zero-width buffer is left untouched |
| Render.Half | src/render.rs:101-102 | `i32` division by 2 truncates toward zero: twice the quotient is within one of the dividend and never further from zero |
| Render.PaintRow | src/render.rs:109-132 | drawing part of an image row onto the window keeps the buffer length |
| Render.PaintRows | src/render.rs:104-133 | drawing image rows onto the window keeps the buffer length |
| Render.PaintRowCells | src/render.rs:109-132 | drawing the first `n` pixels of image row `iy` sets exactly the window cells of row `cy+iy` at columns `cx..cx+n` to the pixel over the background and leaves every other cell |
| Render.PaintRowsCells | src/render.rs:104-133 | drawing the first `m` image rows sets every window cell the image covers in those rows to the image pixel over the background and leaves every other cell |
| Render.PaintRowOffWindow | src/render.rs:106-109 | an image row that lands above or below the window changes nothing |
| Render.CompositeCentered | src/render.rs:90-136 | `composite_centered` returns `win_w·win_h` words; each window cell is the image pixel at that cell over the background when the image, centred by truncating halves and shifted by the pan offset, covers the cell, and the background elsewhere, so alpha-0 pixels leave the background and alpha-255 pixels give their packed RGB |
| Render.CenteredRows | src/render.rs:104-133 | the row loop leaves the buffer as drawing every image row in turn does |
| Render.CenteredDone | src/render.rs:98-136 | drawing every image row over a window filled with the background gives the centred composite cell by cell |
| Render.CenteredRow | src/render.rs:105-132 | one image row is drawn onto the window row it lands on, skipping columns off the window, and changes nothing when that row is off the window |
| Render.BlitRowCells | src/render.rs:208-231 | drawing part of a thumbnail row keeps the buffer length |
| Render.BlitRowsCells | src/render.rs:203-233 | drawing thumbnail rows keeps the buffer length |
| Render.BlitRowCellsAt | src/render.rs:208-231 | drawing the first `n` pixels of thumbnail row `iy` blends exactly the cells of buffer row `oy+iy` at columns `ox..ox+n` over the value each held, and leaves every other cell |
| Render.BlitRowPastEdge | src/render.rs:211-214 | once a pixel falls past the buffer's right edge the rest of the row changes nothing, so the `break` loses nothing |
| Render.BlitRowsPastEdge | src/render.rs:206-209 | once a row falls below the buffer's bottom edge the remaining rows change nothing, so the `break` loses nothing |
| Render.BlitRowsCellsAt | src/render.rs:203-233 | drawing the thumbnail rows blends every covered cell inside the buffer over the value it held and leaves every other cell |
| Render.BlitThumbnail | src/render.rs:190-234 | `blit_thumbnail` leaves the buffer as drawing every thumbnail row does, with the thumbnail at `dx + (cell_w - tw)/2`, `dy + (cell_h - th)/2` (saturating), clipped to the buffer |
| Render.BlitThumbnailCells | src/render.rs:190-234 | after the blit every cell the centred thumbnail covers is the thumbnail pixel over the old value and every other cell is unchanged; no write leaves the buffer |
| Render.BlitRow | src/render.rs:208-231 | one thumbnail row is drawn over buffer row `oy+iy`, stopping at the right edge |
| Status.FormatFileSize | src/status.rs:36-48 | below 1000 bytes the size in bytes with " B"; below a million the whole kilobytes, a dot and the truncated tenths with " KB"; otherwise the same in megabytes with " MB" |
| Status.FileSizeTruncates | src/status.rs:37-44 | the shown `whole.frac` is the size truncated to one decimal of its unit: at most the true size and less than a tenth of a unit below it |
| Status.DayOfYearInRange | src/status.rs:77-79 | within a 400-year era the year-of-era estimate lies in 0..399 and leaves a day of year in 0..365 |
| Status.EraParts | src/status.rs:77 | an era splits into centuries, 4-year blocks, years and a day of year, with the leap days in the last century and year |
| Status.YearEstimate | src/status.rs:77 | the estimate `(doe - doe/1460 + doe/36524 - doe/146096)/365` lands exactly on the year of the era |
| Status.DaysToDate | src/status.rs:72-85 | `days_to_date` gives a month in 1..12, a day in 1..31 and a year from 1970 on |
| Status.EraOfDays | src/status.rs:74-76 | every day from the epoch on falls in era 4 at or after its day 135080, or in a later era |
| Status.CivilInEra | src/status.rs:77-84 | a day of an era gives a month in 1..12, a day in 1..31 and a year in that era, March-based years moved on for January and February |
| Status.YearOfEra | src/status.rs:77-79 | the year-of-era estimate is at most 399 and leaves a day of year in 0..365 |
| Status.MonthDay | src/status.rs:80-82 | the March-based day of year gives a month and day whose day count from 1 March is that day of year, January and February exactly for days 306 and on |
| Status.LateInEra | src/status.rs:77-83 | from 1 January of an era's 370th year on, the civil year is at least 370 years into the era |
| Status.EpochIsNewYear1970 | src/status.rs:72-85 | day 0 is 1970-01-01 |
| Status.EpochInEra | src/status.rs:74-84 | day 135080 of era 4 is 1970-01-01 |
| Status.DaysToDateRoundTrip | src/status.rs:72-85 | counting the days from 1970-01-01 to the date `days_to_date` gives, by the inverse days-from-civil algorithm, returns the input |
| Status.CivilInEraRoundTrip | src/status.rs:77-84 | within an era, counting the days to the computed date gives back the era's day |
| Status.DaysFromCivilParts | src/status.rs:78-83 | the inverse conversion of a date given by its year of era and March-based day of year |
| Status.Pad0 | src/status.rs:62-65 | `{:0w}` gives digits whose value is the number, at least `w` long and no longer than the number's own digits need |
| Status.LeadingZeros | src/status.rs:62-65 | zero padding on the left keeps a digit string's value |
| Status.ClockOf | src/status.rs:56-58 | hours below 24 and minutes below 60 that give the seconds into the day to the minute |
| Status.FormatSystemTime | src/status.rs:50-69 | a time before the epoch prints as "?" |
| Status.SystemTimeReadsBack | src/status.rs:50-69 | up to year 9999 the timestamp is 16 characters whose date and clock fields read back, through days-from-civil, as the time to the minute |
| Status.TimestampFields | src/status.rs:62-65 | "YYYY-MM-DD hh:mm" is 16 characters with its separators at fixed places and each field reading back as its value |
| Status.DatePartFields | src/status.rs:63 | "YYYY-MM-DD" is 10 characters whose fields read back as year, month and day |
| Status.ClockPartFields | src/status.rs:63 | "hh:mm" is 5 characters whose fields read back as hours and minutes |
| Status.DigitsBound | src/status.rs:63 | a number below `10^k` has at most `k` digits, so padding to `k` gives exactly `k` |
| Status.StatusBarRect | src/status.rs:88-98 | nothing is drawn into an empty buffer; otherwise the bar is `GLYPH_H + 6` high, ends at the bottom row (or starts at 0 when the buffer is shorter), and its width is exactly the smaller of the text width plus 12 and the buffer width |
| Status.DrawStatusBar | src/status.rs:88-99 | the status bar darkens at opacity 160 exactly the cells of that rectangle and leaves every other cell |
| Input.SymDirection | src/input.rs:104-107 | h and Left give left, l and Right right, k and Up up, j and Down down, each in both directions of the equivalence |
| Input.MapViewerKey | src/input.rs:93-123 | Ctrl with the physical 0 key gives ActualSize, then Shift with the physical W key gives FitToWindow, then a vi key or arrow starts a pan in its keysym's direction; otherwise each table action comes exactly from its keysyms (n or space, p or BackSpace, g, G, + or =, -, 0, e, f, r, R), every other keysym gives None, and a press never stops a pan |
| Input.KeycodeDirection | src/input.rs:6-9 | exactly the physical H, J, K and L keys (35–38) have a direction |
| Input.ArrowDirection | src/input.rs:133-136 | exactly the four arrow keysyms have a direction, the same one a press gives them |
| Input.MapViewerKeyRelease | src/input.rs:126-140 | as written, a physical H/J/K/L release stops the pan of that physical key whatever its keysym; otherwise only an arrow stops a pan; a release only ever stops a pan |
| Input.ReleaseCanStopOtherDirection | src/input.rs:104-107 | as written, keycode 36 producing 'h' starts a left pan when pressed and stops a downward one when released |
| Input.MapViewerKeyReleaseFixed | src/input.rs:126-140 | the release stops the pan its keysym's press would start, falling back to the physical key only for keysyms without a direction |
| Input.ReleaseStopsPressedDirection | src/input.rs:93-140 | with the corrected release, releasing any key whose press started a pan stops that very pan |
| Input.FixedReleaseAgreesOnQwerty | src/input.rs:126-140 | the corrected release agrees with the written one wherever each vi key produces its own letter, and on every arrow from a non-vi key |
| Input.MapGalleryKey | src/input.rs:142-152 | in the gallery the vi keys and arrows move the selection in their direction, g and G go to the ends, and every other keysym maps to nothing |
| Input.MapKey | src/input.rs:67-91 | a release maps to nothing in the gallery and at most to a pan stop in the viewer; a press never maps to a pan stop |
| Input.GlobalKeysInBothModes | src/input.rs:78-85 | q, Escape, Return and s map to Quit, EscapeOrQuit, ToggleMode and CycleSort in both modes |
| Input.PanKeysMoveGallery | src/input.rs:86-90 | a press that starts a pan in the viewer moves the gallery selection the same way |
| Input.ModifiersBeforeTable | src/input.rs:87-100 | Ctrl+0 and Shift+W by physical key win over the viewer's keysym table once the global keys are passed |
| GalleryGrid.CalcCols | src/gallery.rs:80-83 | at least one column; the most whole 210-pixel cells that fit in the width less the paddings and a gap, or one when none fits |
| GalleryGrid.ScrollFor | src/gallery.rs:153-165 | in a window at least one cell and a padding high the selected row ends up wholly visible; a scroll that already shows it is kept |
| GalleryGrid.Missing | src/gallery.rs:195-200 | the indices of a range that are neither cached nor pending are no more than the range holds |
| GalleryGrid.MissingExactly | src/gallery.rs:195-200 | the batch holds, in increasing order and each once, exactly the indices of the range that have no thumbnail and are not pending |
| GalleryGrid.MissingBelow | src/gallery.rs:195-199 | the batch gathered before index `i` does not hold `i`, so marking earlier indices pending never hides a later one |
| GalleryGrid.MissingStep | src/gallery.rs:195-199 | one more loop step adds its index exactly when that index is neither cached nor pending |
| GalleryGrid.QueueMissing | src/gallery.rs:194-200 | the dispatch loop returns exactly the missing indices of the range and the pending set grown by them |
| GalleryGrid.LoadRange | src/gallery.rs:184-191 | the requested range stops at the list's end and contains the visible range whenever that is non-empty |
| GalleryGrid.ColumnKept | src/gallery.rs:106-120 | a step of one whole row keeps the column |
| GalleryGrid.Gallery.constructor | src/gallery.rs:60-68 | a new grid selects 0, scrolls to 0, has one column and no thumbnails or requests |
| GalleryGrid.Gallery.SetSelected | src/gallery.rs:72-74 | the selection becomes the index and nothing else changes |
| GalleryGrid.Gallery.MoveLeft | src/gallery.rs:86-93 | one step back unless at 0 or the list is empty; a selection inside the list stays inside |
| GalleryGrid.Gallery.MoveRight | src/gallery.rs:96-103 | one step on only while that stays inside the list |
| GalleryGrid.Gallery.MoveUp | src/gallery.rs:106-110 | one row up when there is a row above, keeping the column |
| GalleryGrid.Gallery.MoveDown | src/gallery.rs:113-120 | one row down only when that cell holds an image, keeping the column |
| GalleryGrid.Gallery.GoFirst | src/gallery.rs:123-126 | selection and scroll go to 0 |
| GalleryGrid.Gallery.GoLast | src/gallery.rs:129-133 | the last image of a non-empty list; an empty list keeps the selection |
| GalleryGrid.Gallery.PollThumbnails | src/gallery.rs:142-150 | every received index becomes cached and stops being pending; the answer is whether any arrived |
| GalleryGrid.Gallery.EnsureVisible | src/gallery.rs:153-165 | the scroll becomes the one that shows the selected row, and nothing else changes |
| GalleryGrid.Gallery.Dispatch | src/gallery.rs:193-200 | the batch is exactly the missing indices of the load range, and each becomes pending |
| GalleryGrid.Gallery.Render | src/gallery.rs:168-203 | an empty window changes nothing; otherwise the columns are recomputed, the selection scrolled into view, and every index of the load range without a thumbnail or a request is requested once, never an index past the list or already pending |
| Application.Next | src/app.rs:27-34 | the next sort mode is always a different one |
| Application.SortCycle | src/app.rs:27-34 | four steps of the cycle return to the starting mode and two or three never do |
| Application.Label | src/app.rs:36-43 | every mode has a label of at least four characters |
| Application.LabelsDistinct | src/app.rs:36-43 | different modes have different labels |
| Application.Fields | src/app.rs:884 | splitting on ':' or ' ' gives at least one field |
| Application.FieldsHaveNoSeparator | src/app.rs:884 | no field of the split holds a separator |
| Application.FieldsOfField | src/app.rs:884 | a text without separators splits into itself alone |
| Application.FieldsOfJoin | src/app.rs:884 | a field, a separator and a rest split as that field followed by the fields of the rest |
| Application.ParseExifDatetime | src/app.rs:882-900 | fewer than six fields give None; a value is returned exactly when the first six fields split on ':' and ' ' parse as unsigned numbers with a year from 1970 on, a month in 1..12 and a day in 1..31, and it is then the approximate seconds of those six numbers |
| Application.ParseFields | src/app.rs:885-899 | a result needs six fields whose first six all parse as unsigned numbers, a year from 1970 on, a month in 1..12 and a day in 1..31; conversely such fields always give the approximate seconds of the six numbers |
| Application.SixFields | src/app.rs:885 | six fields free of ':' and ' ', joined as "a:b:c d:e:f", split back into exactly those six fields |
| Application.PaddedFieldParses | src/app.rs:888-893 | a zero-padded field holds no separator and `parse::<u64>` reads it back as its number, leading zeros included |
| Application.ExifTextFields | src/app.rs:884 | "YYYY:MM:DD HH:MM:SS" written from six numbers, each zero-padded to four or two places, splits back into its six padded fields |
| Application.ExifTextParses | src/app.rs:882-900 | a zero-padded "YYYY:MM:DD HH:MM:SS" date in range parses to its approximate seconds, `((Y-1970)·365 + (Y-1969)/4 + (M-1)·30 + D)·86400 + h·3600 + m·60 + s`, and one out of range gives None |
| Application.SixNumbersParse | src/app.rs:888-899 | six fields that parse to a date in range give the approximate seconds of those numbers |
| Application.SixNumbersReject | src/app.rs:888-896 | six fields whose year, month or day parses out of range give None |
| Application.TimeOfDayOrder | src/app.rs:898-899 | on one date a later time of day gives a strictly larger key |
| Application.DayOrder | src/app.rs:898-899 | within one month a later day gives a strictly larger key whatever the times of day |
| Application.ThirtyFirstMeetsFirst | src/app.rs:898 | with 30-day months the 31st of a month counts as the same day as the 1st of the next |
| Application.RgbaToXrgb | src/app.rs:903-915 | one word per pixel, top byte clear, whose red, green and blue are the pixel's bytes |
| Application.XrgbIgnoresAlpha | src/app.rs:907-913 | two pixels that differ only in alpha give the same word |
| Application.NextIndex | src/app.rs:633-640 | one on, 0 after the last, and inside the list |
| Application.PrevIndex | src/app.rs:641-648 | one back, the last (saturating) before the first, and inside a non-empty list |
| Application.NextPrevInverse | src/app.rs:633-648 | on a non-empty list next and previous undo each other |
| Application.RemoveAt | src/app.rs:437 | `Vec::remove` shifts every later element one place down |
| Application.RemoveAtMultiset | src/app.rs:437 | removing takes exactly one occurrence of the element out |
| Application.ShiftedKeys | src/app.rs:439-447 | an index is a key after the shift exactly when the index it came from was cached |
| Application.ShiftCache | src/app.rs:439-448 | keys below the removed index stay, keys above move down by one, the removed index goes, and each entry keeps its image |
| Application.ShiftKeepsAgreement | src/app.rs:436-448 | after the removal and the shift every cached image still belongs to the path at its index |
| Application.Reindex | src/app.rs:439-448 | the drain loop builds exactly the shifted cache, whatever order the keys come out in |
| Application.DropPath | src/app.rs:436-461 | the failure branch yields the dropped session |
| Application.Drop | src/app.rs:436-461 | dropping the current path keeps the state consistent, removes exactly that path, and an emptied list shows "No valid images" |
| Application.Settle | src/app.rs:411-466 | after loading the current image is cached unless the list emptied; a cached current image or an empty list changes nothing; emptying the list shows "No valid images"; the state stays consistent |
| Application.SettleDropsOnlyFailures | src/app.rs:414-463 | loading never adds a path and never removes an occurrence of a path that decodes |
| Application.RemoveAtCount | src/app.rs:437 | removal lowers the count of the removed path by one and no other count |
| Application.Position | src/app.rs:828 | `iter().position` finds the first occurrence, or None exactly when the path is absent |
| Application.RemapCacheAsWritten | src/app.rs:833-839 | as written, the cache is replaced by the current image at its new index only when the index changed and the image was cached, and kept whole otherwise |
| Application.StaleCacheAfterSort | src/app.rs:826-839 | as written, re-sorting ["a","b","c"] into ["a","c","b"] with 0 and 1 cached leaves index 1 holding "b"'s image while its path is "c" |
| Application.RemapCache | src/app.rs:833-839 | the corrected remap keeps at most the current image, under its new index, exactly when it was cached |
| Application.RemapCacheAgrees | src/app.rs:826-839 | after any re-sort that moves the current path, the corrected cache agrees with the new order |
| Application.App.constructor | src/app.rs:76-100 | a new application is at index 0 with no image decoded, no message and sorted by name |
| Application.App.DropCurrent | src/app.rs:436-461 | the fields become the dropped session; the sort mode stays |
| Application.App.SetState | src/app.rs:436-461 | the list, index, cache and message become those given; the sort mode stays |
| Application.App.EnsureImageLoaded | src/app.rs:411-466 | the loop leaves the state `Settle` describes, consistent, with the sort mode kept |
| Application.App.NavigateTo | src/app.rs:468-486 | on a non-empty list the index becomes `index mod len`, the message is cleared and the image loaded as `Settle` says; an empty list changes nothing; `FirstImage` at src/app.rs:649-651 is `NavigateTo(0)` |
| Application.App.NextImage | src/app.rs:633-640 | navigates to the next index with wrap-around |
| Application.App.PrevImage | src/app.rs:641-648 | navigates to the previous index with wrap-around |
| Application.App.LastImage | src/app.rs:652-656 | on a non-empty list navigates to the last index; an empty list changes nothing |
| Application.App.CycleSort | src/app.rs:754-848 | on a non-empty list the sort mode moves on, the list takes its new order, the index points at the first occurrence of the path that was current, and the cache holds at most that image under the new index; an empty list changes nothing |

## Left out

- Codec libraries: libpng, turbojpeg, libwebp, libgif's slurp, libtiff and librsvg/cairo are not modelled. Their output (dimensions plus raw bytes, or palette and raster) is a parameter of the conversion loop that follows each one.
- Floating point is not modelled. That covers `format_decimal`, the `f64` branches of `format_rational`/`format_srational`, the GPS conversions `parse_gps_tags`/`read_gps_coord`, the SVG size clamp, `resize_rgba`/`scale_to_fit`/`scale_by_factor`/`generate_thumbnail`, and the zoom and pan maths of the viewer.
- TagFormat.FormatRational: a value shown in decimal is recorded as its prefix, numerator, denominator and suffix, not as the digits `format_decimal` would print. The integer branch choice is modelled; the decimal text is not.
- TagFormat.FormatSRational: same as FormatRational for its decimal branch.
- Dispatch.AsciiLower: characters are lowered one at a time and a non-ASCII character is kept whole. The source lowers each UTF-8 byte and turns it into a Latin-1 character, so a non-ASCII extension gives a longer, different string there. This changes only the extension text in the "Unsupported format" error. Whether an extension is in the supported list is the same, because every supported extension is ASCII.
- Tiff.ParseAllExifTags: the GPS sub-IFD is not walked, since its values are floating point. The tags from IFD0 and the Exif sub-IFD are modelled.
- Filesystem access is not modelled: `scan_directory`/`collect_paths`, symlink checks, `read_file_meta`, `format_status` and `load_exif_for_current`. Dispatch.ReadFileLimited models only the size comparison of `read_file_limited`.
- Application.Settle: decoding is the set of paths that decode, since `load_image` is a file read followed by codec calls. A cached image is recorded by the path it came from.
- Application.Drop: the "Skipped" message records the whole path rather than only its file name. The `eprintln!` warning and the message deadlines are not modelled.
- Application.App.CycleSort: the sort itself reads file metadata and EXIF dates, so the sorted list is a parameter that must be a permutation of the current one. The gallery update (`set_selected`, `invalidate_thumbnails`) and the toast are not modelled. The cache remap is the corrected one under "## Findings".
- Application.App.NavigateTo: `reset_view`, `start_animation`, `load_exif_for_current`, `update_title` and the redraw flag belong to the viewer and the window and are not modelled.
- Application.ParseExifDatetime: the `u64` arithmetic of the approximate timestamp is unbounded here. A year near `u64::MAX` that overflows in the source does not overflow in the model.
- Application.ThirtyFirstMeetsFirst: the 30-day month of `parse_exif_datetime` is modelled as written. The lemma records its effect rather than correcting it, since the source calls the value approximate.
- Input.MapKey: viewer releases use the corrected release mapping under "## Findings"; the mapping as written is Input.MapViewerKeyRelease.
- Status.FormatSystemTime: a `SystemTime` is its whole number of seconds from the epoch, negative before it. Sub-second parts are ignored, as `as_secs` drops them.
- Status.StatusBarRect: the `u32` arithmetic `text.len() as u32 * GLYPH_W + 12` at src/status.rs:95 is unbounded here. A text long enough to overflow it wraps in the source, or panics in a debug build, but not in the model.
- Status.DrawStatusBar: the text itself (`font::draw_string` and the glyph bitmaps) is not modelled, since `crate::font` is not part of this model. The glyph width and height are parameters.
- Render.FillRect: requires a non-zero buffer width, since `fill_rect` divides by it and panics at zero. Render.DrawOverlay handles a zero width itself.
- Render.DrawOverlay: the per-cell index check inside the loop is always true once the row and column bounds hold, so it is folded into them.
- Render.CompositeCentered: the window buffer is built in a local array. Coordinates are unbounded integers, so `i32` overflow of the pan offsets is not modelled.
- Render.BlitThumbnail: the `u32` sums of the cell position and the thumbnail offset are unbounded here, so their wrap-around is not modelled.
- Orientation.Transformable: the transforms require the image's byte count to be below 2^32, since the source computes byte offsets in `u32`.
- GalleryGrid.Gallery.Render: drawing the grid (backgrounds, borders, thumbnails, the layout offset) and sending the batch over the worker channel are not modelled. The worker thread and its channels become the received indices given to GalleryGrid.Gallery.PollThumbnails. `has_pending` is the test `pending != {}` on the modelled field and has no member of its own.
- The Wayland layer (`src/wayland.rs`, `src/protocols.rs`), `src/main.rs`, `src/viewer.rs`, the `run_*` poll loops and all `Instant` deadlines are not part of this model.

## Findings

| source | as written | input that shows it | evidently intended | confidence | as-written member | corrected member |
|---|---|---|---|---|---|---|
| src/input.rs:126-140 | a viewer key release picks the pan to stop by the physical H/J/K/L keycode, while the press picks the pan to start by keysym (src/input.rs:104-107) | on a layout where keycode 36 produces 'h' (Dvorak), pressing it starts a left pan and releasing it stops a downward one, so the left pan never stops | a release stops the pan its own press started | medium, not executed | Input.MapViewerKeyRelease, Input.ReleaseCanStopOtherDirection | Input.MapViewerKeyReleaseFixed, Input.ReleaseStopsPressedDirection |
| src/app.rs:833-839 | after re-sorting, the cache is remapped only when the current index changed; otherwise every entry is kept under its old index | cache {0: "a", 1: "b"}, paths ["a","b","c"] sorted into ["a","c","b"]: the current index stays 0 and index 1 keeps "b"'s image while its path is now "c" | after a re-sort every cached image still belongs to the path at its index | high, not executed | Application.RemapCacheAsWritten, Application.StaleCacheAfterSort | Application.RemapCache, Application.RemapCacheAgrees |
