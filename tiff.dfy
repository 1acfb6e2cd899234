/** The hand-written EXIF reader of src/image_loader.rs: the JPEG marker scan
    for the APP1 "Exif" segment (ITU-T T.81, Annex B: SOI FFD8, APP1 FFE1,
    SOS FFDA), the TIFF 6.0 header ("II"/"MM", magic 42), the 12-byte IFD
    entries whose value sits inline when it fits in 4 bytes, and the Exif 2.2
    sub-IFD pointer tags. */
module Tiff {
  import opened Base
  import opened TagFormat

  // ---------------------------------------------------------------------
  // JPEG marker scan
  // ---------------------------------------------------------------------

  /** "Exif\0\0", the six bytes that open an Exif APP1 payload. */
  const EXIF_HEADER: seq<Byte> := [0x45, 0x78, 0x69, 0x66, 0, 0]

  /** The big-endian segment length at `pos + 2`. */
  function SegmentLength(data: seq<Byte>, pos: nat): nat
    requires pos + 4 <= |data|
  {
    256 * data[pos + 2] as int + data[pos + 3] as int
  }

  /** An APP1 marker at `t - 10` whose payload opens with "Exif\0\0", so
      that the TIFF header starts at `t`. */
  predicate ExifSegmentAt(data: seq<Byte>, t: nat)
  {
    10 <= t <= |data| && data[t - 10] == 0xFF && data[t - 9] == 0xE1 && data[t - 6..t] == EXIF_HEADER
  }

  /** What the scan loop does from marker position `pos` on: the offset of
      the TIFF header inside the first Exif APP1 segment, if one comes before
      a non-marker byte, an SOS marker or the end of the data. */
  function ScanFrom(data: seq<Byte>, pos: nat): (r: Option<nat>)
    ensures pos + 4 < |data| && (data[pos] != 0xFF || data[pos + 1] == 0xDA) ==> r.None?
    ensures r.Some? ==> pos + 10 <= r.value && ExifSegmentAt(data, r.value)
    decreases |data| - pos
  {
    if pos + 4 >= |data| then None
    else if data[pos] != 0xFF then None
    else
      var next := pos + 2 + SegmentLength(data, pos);
      if data[pos + 1] == 0xE1 then
        if pos + 4 + 6 > |data| then None
        else if data[pos + 4..pos + 10] != EXIF_HEADER then ScanFrom(data, next)
        else Some(pos + 10)
      else if data[pos + 1] == 0xDA then None
      else ScanFrom(data, next)
  }

  /** The TIFF header offset of the Exif segment of a JPEG stream; nothing
      unless the stream opens with SOI. */
  function FindExif(data: seq<Byte>): (r: Option<nat>)
    ensures r.Some? ==> |data| >= 4 && data[0] == 0xFF && data[1] == 0xD8
    ensures r.Some? ==> 12 <= r.value <= |data| && data[r.value - 6..r.value] == EXIF_HEADER
  {
    if |data| < 4 || data[0] != 0xFF || data[1] != 0xD8 then None
    else ScanFrom(data, 2)
  }

  /** The marker loop shared by `read_exif_orientation` and `read_exif_tags`. */
  method ScanForExif(data: seq<Byte>) returns (r: Option<nat>)
    ensures r == FindExif(data)
  {
    if |data| < 4 || data[0] != 0xFF || data[1] != 0xD8 {
      return None;
    }
    var pos: nat := 2;
    while pos + 4 < |data|
      invariant ScanFrom(data, pos) == FindExif(data)
      decreases |data| - pos
    {
      var done, found, next := ScanStep(data, pos);
      if done {
        return found;
      }
      pos := next;
    }
    return None;
  }

  /** One turn of the marker loop at `pos`: either the scan ends here with
      its answer, or it moves on to the next marker. */
  method ScanStep(data: seq<Byte>, pos: nat) returns (done: bool, found: Option<nat>, next: nat)
    requires pos + 4 < |data|
    ensures done ==> found == ScanFrom(data, pos)
    ensures !done ==> next > pos && ScanFrom(data, next) == ScanFrom(data, pos)
  {
    if data[pos] != 0xFF {
      return true, None, pos;
    }
    var marker := data[pos + 1];
    var segLen := SegmentLength(data, pos);
    if marker == 0xE1 {
      var segStart := pos + 4;
      if segStart + 6 > |data| {
        return true, None, pos;
      }
      if data[segStart..segStart + 6] == EXIF_HEADER {
        return true, Some(segStart + 6), pos;
      }
    } else if marker == 0xDA {
      return true, None, pos;
    }
    return false, None, pos + 2 + segLen;
  }

  // ---------------------------------------------------------------------
  // TIFF header and IFD entries
  // ---------------------------------------------------------------------

  const BYTE_I: Byte := 0x49
  const BYTE_M: Byte := 0x4D
  const TIFF_MAGIC: nat := 42
  const ENTRY_SIZE: nat := 12
  const TAG_EXIF_IFD: nat := 0x8769
  const TAG_GPS_IFD: nat := 0x8825

  /** Byte order and the offset of IFD0. */
  datatype Header = Header(le: bool, ifd0: nat)

  /** The TIFF header at the start of `d`. */
  function ReadHeader(d: seq<Byte>): (r: Option<Header>)
    ensures r.Some? <==> (|d| >= 8 && ((d[0] == BYTE_I && d[1] == BYTE_I) || (d[0] == BYTE_M && d[1] == BYTE_M))
                          && ReadU16(d, 2, d[0] == BYTE_I) == Some(TIFF_MAGIC))
    ensures r.Some? ==> r.value.le == (d[0] == BYTE_I) && ReadU32(d, 4, r.value.le) == Some(r.value.ifd0)
  {
    if |d| < 8 then None
    else
      var order: Option<bool> :=
        if d[0] == BYTE_I && d[1] == BYTE_I then Some(true)
        else if d[0] == BYTE_M && d[1] == BYTE_M then Some(false)
        else None;
      match order
      case None => None
      case Some(le) =>
        if ReadU16(d, 2, le) != Some(TIFF_MAGIC) then None
        else Some(Header(le, ReadU32(d, 4, le).value))
  }

  /** Entry `k` of the IFD whose entries start at `start` lies inside `d`. */
  predicate EntryFits(d: seq<Byte>, start: nat, k: nat)
  {
    start + ENTRY_SIZE * k + ENTRY_SIZE <= |d|
  }

  lemma EarlierEntriesFit(d: seq<Byte>, start: nat, j: nat, k: nat)
    requires j <= k && EntryFits(d, start, k)
    ensures EntryFits(d, start, j)
  {
  }

  /** The tag of entry `k`. */
  function EntryTag(d: seq<Byte>, le: bool, start: nat, k: nat): nat
    requires EntryFits(d, start, k)
  {
    ReadU16(d, start + ENTRY_SIZE * k, le).value
  }

  /** The SHORT stored in the value field of entry `k`. */
  function EntryShort(d: seq<Byte>, le: bool, start: nat, k: nat): nat
    requires EntryFits(d, start, k)
  {
    ReadU16(d, start + ENTRY_SIZE * k + 8, le).value
  }

  /** The first entry from `i` on, below `n`, that is tagged Orientation; the
      search ends at the first entry that would overrun `d`. */
  function OrientationEntry(d: seq<Byte>, le: bool, start: nat, i: nat, n: nat): (r: Option<nat>)
    ensures r.Some? ==> i <= r.value < n && EntryFits(d, start, r.value)
                        && EntryTag(d, le, start, r.value) == TAG_ORIENTATION
    ensures r.Some? ==> forall j :: i <= j < r.value ==> EntryFits(d, start, j) && EntryTag(d, le, start, j) != TAG_ORIENTATION
    ensures r.None? ==> forall j :: i <= j < n && EntryFits(d, start, j) ==> EntryTag(d, le, start, j) != TAG_ORIENTATION
    decreases n - i
  {
    if i >= n || !EntryFits(d, start, i) then
      None
    else if EntryTag(d, le, start, i) == TAG_ORIENTATION then
      Some(i)
    else
      var r := OrientationEntry(d, le, start, i + 1, n);
      assert r.Some? ==> forall j :: i <= j < r.value ==> EntryFits(d, start, j) by {
        if r.Some? {
          forall j | i <= j < r.value ensures EntryFits(d, start, j) {
            EarlierEntriesFit(d, start, j, r.value);
          }
        }
      }
      r
  }

  /** `parse_tiff_orientation`: the SHORT value of the first Orientation
      entry of IFD0 of the TIFF structure at `tiffOffset`. */
  function ParseTiffOrientation(data: seq<Byte>, tiffOffset: nat): (r: Option<nat>)
    ensures r.Some? ==> tiffOffset + 8 <= |data| && ReadHeader(data[tiffOffset..]).Some?
    ensures r.Some? ==> r.value < U16_LIMIT
    ensures r.Some? ==>
      var d := data[tiffOffset..];
      var h := ReadHeader(d).value;
      h.ifd0 + 2 <= |d| &&
      var k := OrientationEntry(d, h.le, h.ifd0 + 2, 0, ReadU16(d, h.ifd0, h.le).value);
      k.Some? && r.value == EntryShort(d, h.le, h.ifd0 + 2, k.value)
    ensures tiffOffset + 8 <= |data| && ReadHeader(data[tiffOffset..]).Some? ==>
      var d := data[tiffOffset..];
      var h := ReadHeader(d).value;
      h.ifd0 + 2 <= |d| && OrientationEntry(d, h.le, h.ifd0 + 2, 0, ReadU16(d, h.ifd0, h.le).value).Some? ==>
      r.Some?
  {
    if tiffOffset + 8 > |data| then None
    else
      var d := data[tiffOffset..];
      match ReadHeader(d)
      case None => None
      case Some(h) =>
        if h.ifd0 + 2 > |d| then None
        else
          var count := ReadU16(d, h.ifd0, h.le).value;
          match OrientationEntry(d, h.le, h.ifd0 + 2, 0, count)
          case None => None
          case Some(k) => Some(EntryShort(d, h.le, h.ifd0 + 2, k))
  }

  /** `read_exif_orientation`: the Orientation of the Exif segment of a JPEG stream. */
  method ReadExifOrientation(data: seq<Byte>) returns (r: Option<nat>)
    ensures r.Some? ==> FindExif(data).Some? && r == ParseTiffOrientation(data, FindExif(data).value)
    ensures FindExif(data).Some? ==> r == ParseTiffOrientation(data, FindExif(data).value)
    ensures r.Some? ==> data[0] == 0xFF && data[1] == 0xD8 && r.value < U16_LIMIT
  {
    var tiffStart := ScanForExif(data);
    match tiffStart
    case None => r := None;
    case Some(t) => r := ParseTiffOrientation(data, t);
  }

  // ---------------------------------------------------------------------
  // Tag values
  // ---------------------------------------------------------------------

  /** Bytes per value of each TIFF field type 0..10. */
  const TYPE_SIZES: seq<nat> := [0, 1, 1, 2, 4, 8, 1, 1, 2, 4, 8]

  const TYPE_ASCII: nat := 2
  const TYPE_SHORT: nat := 3
  const TYPE_LONG: nat := 4
  const TYPE_RATIONAL: nat := 5
  const TYPE_SRATIONAL: nat := 10

  /** The position of the first NUL, or the length when there is none. */
  function FirstNul(bytes: seq<Byte>): (n: nat)
    ensures n <= |bytes|
    ensures forall i :: 0 <= i < n ==> bytes[i] != 0
    ensures n < |bytes| ==> bytes[n] == 0
  {
    if bytes == [] then 0
    else if bytes[0] == 0 then 0
    else 1 + FirstNul(bytes[1..])
  }

  /** A printable ASCII byte as itself, anything else as '?'. */
  function ShownChar(b: Byte): (c: char)
    ensures (0x20 <= b <= 0x7E) == (c as int == b)
    ensures !(0x20 <= b <= 0x7E) ==> c == '?'
  {
    if 0x20 <= b <= 0x7E then b as char else '?'
  }

  /** An ASCII value: cut at the first NUL, non-printable bytes shown as '?'. */
  function AsciiText(bytes: seq<Byte>): (s: string)
    ensures |s| <= |bytes| && (|s| < |bytes| ==> bytes[|s|] == 0)
    ensures forall i :: 0 <= i < |s| ==> bytes[i] != 0 && s[i] == ShownChar(bytes[i])
    ensures forall i :: 0 <= i < |s| ==> 0x20 <= s[i] as int <= 0x7E
  {
    seq(FirstNul(bytes), i requires 0 <= i < FirstNul(bytes) => ShownChar(bytes[i]))
  }

  /** A value of type `dtype` read at `off`, printed as the panel shows it. */
  function ValueAt(d: seq<Byte>, off: nat, dtype: nat, count: nat, le: bool, tag: nat): (r: Option<TagText>)
    ensures dtype !in {TYPE_ASCII, TYPE_SHORT, TYPE_LONG, TYPE_RATIONAL, TYPE_SRATIONAL} ==> r.None?
    ensures dtype == TYPE_ASCII ==> (r.Some? <==> off + count <= |d|)
    ensures dtype == TYPE_ASCII && r.Some? ==> r.value == Text(AsciiText(d[off..off + count]))
    ensures dtype == TYPE_SHORT ==> (r.Some? <==> off + 2 <= |d|)
    ensures dtype == TYPE_SHORT && r.Some? ==> r.value == Text(FormatTagShort(tag, ReadU16(d, off, le).value))
    ensures dtype == TYPE_LONG ==> (r.Some? <==> off + 4 <= |d|)
    ensures dtype == TYPE_LONG && r.Some? ==> r.value == Text(NatToString(ReadU32(d, off, le).value))
    ensures dtype in {TYPE_RATIONAL, TYPE_SRATIONAL} ==> (r.Some? <==> off + 8 <= |d|)
    ensures dtype == TYPE_RATIONAL && r.Some? ==>
      r.value == FormatRational(tag, ReadU32(d, off, le).value, ReadU32(d, off + 4, le).value)
    ensures dtype == TYPE_SRATIONAL && r.Some? ==>
      r.value == FormatSRational(tag, ReadI32(d, off, le).value, ReadI32(d, off + 4, le).value)
  {
    if dtype == TYPE_ASCII then
      if off + count > |d| then None else Some(Text(AsciiText(d[off..off + count])))
    else if dtype == TYPE_SHORT then
      match ReadU16(d, off, le)
      case None => None
      case Some(v) => Some(Text(FormatTagShort(tag, v)))
    else if dtype == TYPE_LONG then
      match ReadU32(d, off, le)
      case None => None
      case Some(v) => Some(Text(NatToString(v)))
    else if dtype == TYPE_RATIONAL then
      match (ReadU32(d, off, le), ReadU32(d, off + 4, le))
      case (Some(num), Some(den)) => Some(FormatRational(tag, num, den))
      case _ => None
    else if dtype == TYPE_SRATIONAL then
      match (ReadI32(d, off, le), ReadI32(d, off + 4, le))
      case (Some(num), Some(den)) => Some(FormatSRational(tag, num, den))
      case _ => None
    else None
  }

  /** `read_tag_value`: the value of an entry whose value field is at
      `valueOff`; it is inline when it fits in 4 bytes and otherwise at the
      offset stored there. */
  function ReadTagValue(d: seq<Byte>, valueOff: nat, dtype: nat, count: nat, le: bool, tag: nat): (r: Option<TagText>)
    ensures dtype >= |TYPE_SIZES| ==> r.None?
    ensures dtype !in {TYPE_ASCII, TYPE_SHORT, TYPE_LONG, TYPE_RATIONAL, TYPE_SRATIONAL} ==> r.None?
    ensures dtype < |TYPE_SIZES| && TYPE_SIZES[dtype] * count <= 4 ==> r == ValueAt(d, valueOff, dtype, count, le, tag)
    ensures dtype < |TYPE_SIZES| && TYPE_SIZES[dtype] * count > 4 ==>
      r == (if valueOff + 4 <= |d| then ValueAt(d, ReadU32(d, valueOff, le).value, dtype, count, le, tag) else None)
  {
    if dtype >= |TYPE_SIZES| then None
    else
      var dataOff := if TYPE_SIZES[dtype] * count <= 4 then Some(valueOff) else ReadU32(d, valueOff, le);
      match dataOff
      case None => None
      case Some(o) => ValueAt(d, o, dtype, count, le, tag)
  }

  /** An inline value never reaches past the 4-byte value field. */
  lemma InlineValueWithinField(dtype: nat, count: nat)
    requires dtype in {TYPE_ASCII, TYPE_SHORT, TYPE_LONG, TYPE_RATIONAL, TYPE_SRATIONAL}
    requires count >= 1 && TYPE_SIZES[dtype] * count <= 4
    ensures dtype in {TYPE_SHORT, TYPE_LONG, TYPE_ASCII}
    ensures dtype == TYPE_ASCII ==> count <= 4
  {
  }

  // ---------------------------------------------------------------------
  // IFD walk
  // ---------------------------------------------------------------------

  /** Known tags and their names, IFD0 and the Exif sub-IFD. */
  const IFD0_TAGS: seq<(nat, string)> := [
    (0x010F, "Make"), (0x0110, "Model"), (0x0112, "Orientation"),
    (0x011A, "X Resolution"), (0x011B, "Y Resolution"), (0x0131, "Software"),
    (0x0132, "Date/Time"), (0x013B, "Artist"), (0x8298, "Copyright")]

  const EXIF_TAGS: seq<(nat, string)> := [
    (0x829A, "Exposure Time"), (0x829D, "F-Number"), (0x8827, "ISO"),
    (0x9003, "Date Original"), (0x9004, "Date Digitized"), (0x9204, "Exposure Bias"),
    (0x9207, "Metering Mode"), (0x9209, "Flash"), (0x920A, "Focal Length"),
    (0xA001, "Color Space"), (0xA002, "Width"), (0xA003, "Height"),
    (0xA402, "Exposure Mode"), (0xA403, "White Balance"), (0xA434, "Lens Model")]

  /** The name of the first table row for `tag`. */
  function Label(known: seq<(nat, string)>, tag: nat): (r: Option<string>)
    ensures r.Some? ==> exists k :: 0 <= k < |known| && known[k] == (tag, r.value)
    ensures r.None? ==> forall k :: 0 <= k < |known| ==> known[k].0 != tag
  {
    if known == [] then None
    else if known[0].0 == tag then Some(known[0].1)
    else
      Label(known[1..], tag)
  }

  predicate HasName(known: seq<(nat, string)>, name: string)
  {
    exists k :: 0 <= k < |known| && known[k].1 == name
  }

  predicate Shown(t: TagText)
  {
    t.Decimal? || |t.s| > 0
  }

  /** The displayed pairs so far and the sub-IFD offsets found so far. */
  datatype IfdState = IfdState(tags: seq<(string, TagText)>, exif: Option<nat>, gps: Option<nat>)

  /** The effect of one IFD entry. */
  datatype Effect = Emit(name: string, value: TagText) | SetExif(offset: nat) | SetGps(offset: nat) | Skip

  /** What `parse_ifd_tags` does with entry `k`. */
  function EntryEffect(d: seq<Byte>, le: bool, start: nat, k: nat, known: seq<(nat, string)>): (e: Effect)
    requires EntryFits(d, start, k)
    ensures EntryTag(d, le, start, k) == TAG_EXIF_IFD ==> e.SetExif?
    ensures EntryTag(d, le, start, k) == TAG_GPS_IFD ==> e.SetGps?
    ensures e.SetExif? ==> EntryTag(d, le, start, k) == TAG_EXIF_IFD
    ensures e.SetGps? ==> EntryTag(d, le, start, k) == TAG_GPS_IFD
    ensures e.Emit? ==> HasName(known, e.name) && Shown(e.value)
  {
    var off := start + ENTRY_SIZE * k;
    var tag := EntryTag(d, le, start, k);
    if tag == TAG_EXIF_IFD then SetExif(ReadU32(d, off + 8, le).value)
    else if tag == TAG_GPS_IFD then SetGps(ReadU32(d, off + 8, le).value)
    else match Label(known, tag)
      case None => Skip
      case Some(name) =>
        match ReadTagValue(d, off + 8, ReadU16(d, off + 2, le).value, ReadU32(d, off + 4, le).value, le, tag)
        case Some(v) => if Shown(v) then Emit(name, v) else Skip
        case None => Skip
  }

  function Apply(st: IfdState, e: Effect): IfdState
  {
    match e
    case Emit(name, v) => st.(tags := st.tags + [(name, v)])
    case SetExif(o) => st.(exif := Some(o))
    case SetGps(o) => st.(gps := Some(o))
    case Skip => st
  }

  /** The entries `k .. n-1` applied in order, up to the first that would overrun `d`. */
  function Walk(d: seq<Byte>, le: bool, start: nat, k: nat, n: nat, known: seq<(nat, string)>, st: IfdState): IfdState
    decreases n - k
  {
    if k >= n || !EntryFits(d, start, k) then st
    else Walk(d, le, start, k + 1, n, known, Apply(st, EntryEffect(d, le, start, k, known)))
  }

  /** `parse_ifd_tags`: the IFD at `ifdOffset` applied to `st`. */
  function IfdResult(d: seq<Byte>, ifdOffset: nat, le: bool, known: seq<(nat, string)>, st: IfdState): IfdState
  {
    if ifdOffset + 2 > |d| then st
    else Walk(d, le, ifdOffset + 2, 0, ReadU16(d, ifdOffset, le).value, known, st)
  }

  /** One turn of the `parse_ifd_tags` loop, for an entry that fits. */
  method ParseEntry(d: seq<Byte>, le: bool, entriesStart: nat, i: nat, known: seq<(nat, string)>,
                    tags: seq<(string, TagText)>, exif: Option<nat>, gps: Option<nat>)
    returns (tags': seq<(string, TagText)>, exif': Option<nat>, gps': Option<nat>)
    requires EntryFits(d, entriesStart, i)
    ensures IfdState(tags', exif', gps') == Apply(IfdState(tags, exif, gps), EntryEffect(d, le, entriesStart, i, known))
  {
    tags', exif', gps' := tags, exif, gps;
    var entryOff := entriesStart + i * ENTRY_SIZE;
    assert entryOff == entriesStart + ENTRY_SIZE * i;
    var tag := ReadU16(d, entryOff, le).value;
    var dtype := ReadU16(d, entryOff + 2, le).value;
    var count := ReadU32(d, entryOff + 4, le).value;
    if tag == TAG_EXIF_IFD {
      exif' := Some(ReadU32(d, entryOff + 8, le).value);
    } else if tag == TAG_GPS_IFD {
      gps' := Some(ReadU32(d, entryOff + 8, le).value);
    } else {
      var name := Label(known, tag);
      if name.Some? {
        var value := ReadTagValue(d, entryOff + 8, dtype, count, le, tag);
        if value.Some? && Shown(value.value) {
          tags' := tags' + [(name.value, value.value)];
        }
      }
    }
  }

  /** `parse_ifd_tags`, with its three `&mut` arguments passed in and returned. */
  method ParseIfdTags(d: seq<Byte>, ifdOffset: nat, le: bool, known: seq<(nat, string)>,
                      tags: seq<(string, TagText)>, exif: Option<nat>, gps: Option<nat>)
    returns (tags': seq<(string, TagText)>, exif': Option<nat>, gps': Option<nat>)
    ensures IfdState(tags', exif', gps') == IfdResult(d, ifdOffset, le, known, IfdState(tags, exif, gps))
  {
    tags', exif', gps' := tags, exif, gps;
    if ifdOffset + 2 > |d| {
      return;
    }
    var entryCount := ReadU16(d, ifdOffset, le).value;
    var entriesStart := ifdOffset + 2;
    var i := 0;
    while i < entryCount
      invariant i <= entryCount
      invariant Walk(d, le, entriesStart, i, entryCount, known, IfdState(tags', exif', gps'))
             == IfdResult(d, ifdOffset, le, known, IfdState(tags, exif, gps))
    {
      if entriesStart + i * ENTRY_SIZE + 12 > |d| {
        break;
      }
      tags', exif', gps' := ParseEntry(d, le, entriesStart, i, known, tags', exif', gps');
      i := i + 1;
    }
  }

  /** `longer` is `shorter` followed by tags with known names and values worth showing. */
  ghost predicate AppendsKnown(known: seq<(nat, string)>, shorter: seq<(string, TagText)>, longer: seq<(string, TagText)>)
  {
    |shorter| <= |longer| && longer[..|shorter|] == shorter &&
    forall j :: |shorter| <= j < |longer| ==> HasName(known, longer[j].0) && Shown(longer[j].1)
  }

  lemma AppendsKnownTrans(known: seq<(nat, string)>, a: seq<(string, TagText)>, b: seq<(string, TagText)>, c: seq<(string, TagText)>)
    requires AppendsKnown(known, a, b) && AppendsKnown(known, b, c)
    ensures AppendsKnown(known, a, c)
  {
    assert c[..|a|] == c[..|b|][..|a|];
    forall j | |a| <= j < |c|
      ensures HasName(known, c[j].0) && Shown(c[j].1)
    {
      if j < |b| {
        assert c[j] == c[..|b|][j];
      }
    }
  }

  /** Only known names with non-empty values are appended, after what was there. */
  lemma {:induction false} WalkAppendsKnown(d: seq<Byte>, le: bool, start: nat, k: nat, n: nat,
                                            known: seq<(nat, string)>, st: IfdState)
    ensures AppendsKnown(known, st.tags, Walk(d, le, start, k, n, known, st).tags)
    decreases n - k
  {
    if k < n && EntryFits(d, start, k) {
      var st' := Apply(st, EntryEffect(d, le, start, k, known));
      assert AppendsKnown(known, st.tags, st'.tags);
      WalkAppendsKnown(d, le, start, k + 1, n, known, st');
      AppendsKnownTrans(known, st.tags, st'.tags, Walk(d, le, start, k + 1, n, known, st').tags);
    }
  }

  /** An IFD without pointer entries leaves the sub-IFD offsets alone. */
  lemma {:induction false} WalkKeepsOffsets(d: seq<Byte>, le: bool, start: nat, k: nat, n: nat,
                                            known: seq<(nat, string)>, st: IfdState)
    requires forall j :: k <= j < n && EntryFits(d, start, j) ==>
      EntryTag(d, le, start, j) != TAG_EXIF_IFD && EntryTag(d, le, start, j) != TAG_GPS_IFD
    ensures Walk(d, le, start, k, n, known, st).exif == st.exif
    ensures Walk(d, le, start, k, n, known, st).gps == st.gps
    decreases n - k
  {
    if k < n && EntryFits(d, start, k) {
      WalkKeepsOffsets(d, le, start, k + 1, n, known, Apply(st, EntryEffect(d, le, start, k, known)));
    }
  }

  // ---------------------------------------------------------------------
  // The whole EXIF panel
  // ---------------------------------------------------------------------

  /** The pairs the panel shows for the TIFF structure at `tiffOffset`, GPS
      aside: IFD0 against the IFD0 table, then the Exif sub-IFD that IFD0
      points to against the Exif table. */
  function Panel(data: seq<Byte>, tiffOffset: nat): seq<(string, TagText)>
  {
    if tiffOffset + 8 > |data| then []
    else
      var d := data[tiffOffset..];
      match ReadHeader(d)
      case None => []
      case Some(h) =>
        var ifd0 := IfdResult(d, h.ifd0, h.le, IFD0_TAGS, IfdState([], None, None));
        if ifd0.exif.None? then ifd0.tags
        else IfdResult(d, ifd0.exif.value, h.le, EXIF_TAGS, IfdState(ifd0.tags, None, None)).tags
  }

  /** `parse_all_exif_tags` without the GPS IFD. */
  method ParseAllExifTags(data: seq<Byte>, tiffOffset: nat) returns (tags: seq<(string, TagText)>)
    ensures tiffOffset + 8 > |data| || ReadHeader(data[tiffOffset..]).None? ==> tags == []
    ensures tags == Panel(data, tiffOffset)
  {
    if tiffOffset + 8 > |data| {
      return [];
    }
    var d := data[tiffOffset..];
    var header := ReadHeader(d);
    if header.None? {
      return [];
    }
    var le, ifdOffset := header.value.le, header.value.ifd0;
    var exif, gps;
    tags, exif, gps := ParseIfdTags(d, ifdOffset, le, IFD0_TAGS, [], None, None);
    if exif.Some? {
      var unusedExif, unusedGps;
      tags, unusedExif, unusedGps := ParseIfdTags(d, exif.value, le, EXIF_TAGS, tags, None, None);
    }
  }

  /** One IFD appends only named pairs with non-empty values. */
  lemma IfdAppendsKnown(d: seq<Byte>, ifdOffset: nat, le: bool, known: seq<(nat, string)>, st: IfdState)
    ensures var r := IfdResult(d, ifdOffset, le, known, st);
      |st.tags| <= |r.tags| && r.tags[..|st.tags|] == st.tags &&
      forall j :: |st.tags| <= j < |r.tags| ==> HasName(known, r.tags[j].0) && Shown(r.tags[j].1)
  {
    if ifdOffset + 2 <= |d| {
      WalkAppendsKnown(d, le, ifdOffset + 2, 0, ReadU16(d, ifdOffset, le).value, known, st);
    }
  }

  /** Every pair on the panel carries a name from one of the two tables and
      a non-empty value, IFD0 pairs first. */
  lemma ExifTagsAreKnown(data: seq<Byte>, tiffOffset: nat)
    requires tiffOffset + 8 <= |data| && ReadHeader(data[tiffOffset..]).Some?
    ensures var d := data[tiffOffset..];
      var h := ReadHeader(d).value;
      var ifd0 := IfdResult(d, h.ifd0, h.le, IFD0_TAGS, IfdState([], None, None));
      (forall j :: 0 <= j < |ifd0.tags| ==> HasName(IFD0_TAGS, ifd0.tags[j].0) && Shown(ifd0.tags[j].1)) &&
      (ifd0.exif.Some? ==>
        var all := IfdResult(d, ifd0.exif.value, h.le, EXIF_TAGS, IfdState(ifd0.tags, None, None)).tags;
        |ifd0.tags| <= |all| && all[..|ifd0.tags|] == ifd0.tags &&
        forall j :: |ifd0.tags| <= j < |all| ==> HasName(EXIF_TAGS, all[j].0) && Shown(all[j].1))
  {
    var d := data[tiffOffset..];
    var h := ReadHeader(d).value;
    IfdAppendsKnown(d, h.ifd0, h.le, IFD0_TAGS, IfdState([], None, None));
    var ifd0 := IfdResult(d, h.ifd0, h.le, IFD0_TAGS, IfdState([], None, None));
    if ifd0.exif.Some? {
      IfdAppendsKnown(d, ifd0.exif.value, h.le, EXIF_TAGS, IfdState(ifd0.tags, None, None));
    }
  }

  /** `read_exif_tags`: the panel of a JPEG stream, empty without an Exif segment. */
  method ReadExifTags(data: seq<Byte>) returns (tags: seq<(string, TagText)>)
    ensures FindExif(data).None? ==> tags == []
    ensures FindExif(data).Some? ==> tags == Panel(data, FindExif(data).value)
    ensures |data| < 4 || data[0] != 0xFF || data[1] != 0xD8 ==> tags == []
  {
    var tiffStart := ScanForExif(data);
    if tiffStart.None? {
      return [];
    }
    tags := ParseAllExifTags(data, tiffStart.value);
  }
}
