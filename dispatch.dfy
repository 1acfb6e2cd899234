/** Choosing a decoder from a file name's extension, and the file-size guard
    applied before any file is read (src/image_loader.rs). The extension is
    handed in already split off the path: `None` when the path has none or
    it is not valid UTF-8. */
module Dispatch {
  import opened Base

  /** The extensions the viewer opens, lower case. */
  const SUPPORTED_EXTENSIONS: seq<string> := ["jpg", "jpeg", "png", "gif", "webp", "bmp", "tiff", "tif", "svg"]

  /** 512 MiB: the largest file read into memory. */
  const MAX_FILE_SIZE: nat := 512 * 1024 * 1024

  /** The decoders, one per image family. */
  datatype Format = Jpeg | Png | Webp | Gif | Bmp | Tiff | Svg

  function LowerChar(c: char): char
  {
    if 'A' <= c <= 'Z' then (c as int + 32) as char else c
  }

  /** `ascii_lower`: ASCII capitals become small letters, everything else is kept. */
  function AsciiLower(s: string): (r: string)
    ensures |r| == |s|
    ensures forall i :: 0 <= i < |s| ==> r[i] == LowerChar(s[i])
  {
    if s == [] then [] else [LowerChar(s[0])] + AsciiLower(s[1..])
  }

  /** Lowering is idempotent and leaves no ASCII capital behind. */
  lemma AsciiLowerIdempotent(s: string)
    ensures AsciiLower(AsciiLower(s)) == AsciiLower(s)
    ensures forall i :: 0 <= i < |s| ==> !('A' <= AsciiLower(s)[i] <= 'Z')
  {
    var l := AsciiLower(s);
    forall i | 0 <= i < |s|
      ensures AsciiLower(l)[i] == l[i] && !('A' <= l[i] <= 'Z')
    {
      LowerCharIdempotent(s[i]);
    }
  }

  lemma LowerCharIdempotent(c: char)
    ensures LowerChar(LowerChar(c)) == LowerChar(c)
    ensures !('A' <= LowerChar(c) <= 'Z')
  {
  }

  /** `is_supported_image`: the lowered extension is one of the list. */
  function IsSupportedImage(ext: Option<string>): (b: bool)
    ensures b <==> ext.Some? && AsciiLower(ext.value) in SUPPORTED_EXTENSIONS
  {
    match ext
    case None => false
    case Some(e) => AsciiLower(e) in SUPPORTED_EXTENSIONS
  }

  /** The dispatch of `load_image`: a missing extension is treated as "". */
  function LoadFormat(ext: Option<string>): (r: Result<Format, string>)
    ensures r.Err? ==> r.error == "Unsupported format: " + AsciiLower(if ext.Some? then ext.value else "")
  {
    var e := AsciiLower(if ext.Some? then ext.value else "");
    match e
    case "jpg" => Ok(Jpeg)
    case "jpeg" => Ok(Jpeg)
    case "png" => Ok(Png)
    case "webp" => Ok(Webp)
    case "gif" => Ok(Gif)
    case "bmp" => Ok(Bmp)
    case "tiff" => Ok(Tiff)
    case "tif" => Ok(Tiff)
    case "svg" => Ok(Svg)
    case _ => Err("Unsupported format: " + e)
  }

  /** The directory scan and the loader agree: a file is picked up exactly when
      a decoder exists for it. */
  lemma LoadFormatAgreesWithScan(ext: Option<string>)
    ensures LoadFormat(ext).Ok? <==> IsSupportedImage(ext)
  {
  }

  /** The choice of decoder ignores letter case. */
  lemma LoadFormatIgnoresCase(e: string)
    ensures LoadFormat(Some(e)) == LoadFormat(Some(AsciiLower(e)))
  {
    AsciiLowerIdempotent(e);
  }

  /** The size check of `read_file_limited`: files above 512 MiB are refused
      before they are read; `contents` stands for what the read returns. */
  function ReadFileLimited(size: nat, contents: Result<seq<Byte>, string>): (r: Result<seq<Byte>, string>)
    ensures size > MAX_FILE_SIZE ==> r.Err?
    ensures size <= MAX_FILE_SIZE ==> r == contents
  {
    if size > MAX_FILE_SIZE then Err("File too large") else contents
  }
}
