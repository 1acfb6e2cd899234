/** The application state that ties the viewer to the image list
    (src/app.rs): the sort-mode cycle, the approximate EXIF timestamp used as
    a sort key, the XRGB conversion for the compositor, and the list of paths,
    the current index and the decoded-image cache that loading, navigation
    and re-sorting update in place. */
module Application {
  import opened Base
  import Grid
  import Pixels
  import Render
  import Status

  // ---------------------------------------------------------------------
  // Sort modes
  // ---------------------------------------------------------------------

  datatype SortMode = Name | Size | ExifDate | ModTime

  /** `SortMode::next`: Name, Size, EXIF date, modification time, and round. */
  function Next(m: SortMode): (n: SortMode)
    ensures n != m
  {
    match m
    case Name => Size
    case Size => ExifDate
    case ExifDate => ModTime
    case ModTime => Name
  }

  /** `SortMode::label`: the name shown in the "Sort: ..." toast. */
  function Label(m: SortMode): (s: string)
    ensures |s| >= 4
  {
    match m
    case Name => "Name"
    case Size => "Size"
    case ExifDate => "EXIF Date"
    case ModTime => "Mod Time"
  }

  /** Four presses of the sort key come back to the starting mode, and no
      fewer do. */
  lemma SortCycle(m: SortMode)
    ensures Next(Next(Next(Next(m)))) == m
    ensures Next(Next(m)) != m && Next(Next(Next(m))) != m
  {
  }

  /** Each mode has its own label, so the toast always tells them apart. */
  lemma LabelsDistinct(m1: SortMode, m2: SortMode)
    requires m1 != m2
    ensures Label(m1) != Label(m2)
  {
  }

  // ---------------------------------------------------------------------
  // EXIF date text
  // ---------------------------------------------------------------------

  /** The field separators of an EXIF date: "YYYY:MM:DD HH:MM:SS". */
  predicate IsSeparator(c: char) { c == ':' || c == ' ' }

  predicate NoSeparator(s: string) { forall i :: 0 <= i < |s| ==> !IsSeparator(s[i]) }

  /** `str::split` on ':' or ' ': every field between separators, empty
      ones included, so one more field than separators. */
  function Fields(s: string): (f: seq<string>)
    ensures |f| >= 1
    decreases |s|
  {
    if s == [] then [""]
    else
      var rest := Fields(s[1..]);
      if IsSeparator(s[0]) then [""] + rest
      else [[s[0]] + rest[0]] + rest[1..]
  }

  /** No field holds a separator. */
  lemma {:induction false} FieldsHaveNoSeparator(s: string)
    ensures forall k :: 0 <= k < |Fields(s)| ==> NoSeparator(Fields(s)[k])
    decreases |s|
  {
    if s != [] {
      FieldsHaveNoSeparator(s[1..]);
    }
  }

  /** A text without separators is one field. */
  lemma {:induction false} FieldsOfField(a: string)
    requires NoSeparator(a)
    ensures Fields(a) == [a]
    decreases |a|
  {
    if a != [] {
      FieldsOfField(a[1..]);
      assert [a[0]] + a[1..] == a;
    }
  }

  /** A field, a separator and the rest split as that field followed by the
      fields of the rest. */
  lemma {:induction false} FieldsOfJoin(a: string, c: char, t: string)
    requires NoSeparator(a) && IsSeparator(c)
    ensures Fields(a + [c] + t) == [a] + Fields(t)
    decreases |a|
  {
    if a == [] {
      assert a + [c] + t == [c] + t;
      assert ([c] + t)[1..] == t;
    } else {
      assert (a + [c] + t)[1..] == a[1..] + [c] + t;
      FieldsOfJoin(a[1..], c, t);
      assert [a[0]] + a[1..] == a;
    }
  }

  /** The approximate day count of `parse_exif_datetime`: 365 days a year,
      a leap day every fourth year, 30 days a month. */
  function ApproxDays(year: nat, month: nat, day: nat): nat
    requires year >= 1970 && month >= 1
  {
    (year - 1970) * 365 + (year - 1969) / 4 + (month - 1) * 30 + day
  }

  function ApproxSeconds(year: nat, month: nat, day: nat, hour: nat, min: nat, sec: nat): nat
    requires year >= 1970 && month >= 1
  {
    ApproxDays(year, month, day) * 86400 + hour * 3600 + min * 60 + sec
  }

  /** The first six fields read as unsigned numbers and form a date from
      1970 on, with month 1..12 and day 1..31. */
  predicate DateFieldsValid(parts: seq<string>)
  {
    |parts| >= 6 &&
    ParseU64(parts[0]).Some? && ParseU64(parts[1]).Some? && ParseU64(parts[2]).Some? &&
    ParseU64(parts[3]).Some? && ParseU64(parts[4]).Some? && ParseU64(parts[5]).Some? &&
    ParseU64(parts[0]).value >= 1970 &&
    1 <= ParseU64(parts[1]).value <= 12 && 1 <= ParseU64(parts[2]).value <= 31
  }

  /** The approximate timestamp of six valid fields. */
  function DateFieldsSeconds(parts: seq<string>): nat
    requires DateFieldsValid(parts)
  {
    ApproxSeconds(ParseU64(parts[0]).value, ParseU64(parts[1]).value, ParseU64(parts[2]).value,
                  ParseU64(parts[3]).value, ParseU64(parts[4]).value, ParseU64(parts[5]).value)
  }

  /** `parse_exif_datetime`: the first six fields as unsigned numbers, a
      date from 1970 on with month 1..12 and day 1..31, and the approximate
      seconds since the epoch. Fields after the sixth are ignored. */
  function ParseExifDatetime(s: string): (r: Option<nat>)
    ensures |Fields(s)| < 6 ==> r.None?
    ensures r.Some? <==> DateFieldsValid(Fields(s))
    ensures r.Some? ==> r.value == DateFieldsSeconds(Fields(s))
  {
    ParseFields(Fields(s))
  }

  /** The numeric half of `parse_exif_datetime`, on the split fields. */
  function ParseFields(parts: seq<string>): (r: Option<nat>)
    ensures |parts| < 6 ==> r.None?
    ensures r.Some? ==>
      |parts| >= 6 &&
      ParseU64(parts[0]).Some? && ParseU64(parts[1]).Some? && ParseU64(parts[2]).Some? &&
      ParseU64(parts[3]).Some? && ParseU64(parts[4]).Some? && ParseU64(parts[5]).Some? &&
      ParseU64(parts[0]).value >= 1970 &&
      1 <= ParseU64(parts[1]).value <= 12 && 1 <= ParseU64(parts[2]).value <= 31
    ensures DateFieldsValid(parts) ==> r == Some(DateFieldsSeconds(parts))
  {
    if |parts| < 6 then None
    else
      var year, month, day := ParseU64(parts[0]), ParseU64(parts[1]), ParseU64(parts[2]);
      var hour, min, sec := ParseU64(parts[3]), ParseU64(parts[4]), ParseU64(parts[5]);
      if year.None? || month.None? || day.None? || hour.None? || min.None? || sec.None? then None
      else if year.value < 1970 || month.value == 0 || month.value > 12 || day.value == 0 || day.value > 31 then None
      else Some(ApproxSeconds(year.value, month.value, day.value, hour.value, min.value, sec.value))
  }

  /** The text an EXIF DateTimeOriginal tag holds, "YYYY:MM:DD HH:MM:SS":
      each field zero-padded to its width, wider when the value needs it. */
  function ExifText(year: nat, month: nat, day: nat, hour: nat, min: nat, sec: nat): string
  {
    Status.Pad0(year, 4) + ":" + (Status.Pad0(month, 2) + ":" + (Status.Pad0(day, 2) + " " +
    (Status.Pad0(hour, 2) + ":" + (Status.Pad0(min, 2) + ":" + Status.Pad0(sec, 2)))))
  }

  lemma DigitsHaveNoSeparator(t: string)
    requires AllDigits(t)
    ensures NoSeparator(t)
  {
    forall i | 0 <= i < |t| ensures !IsSeparator(t[i]) {
      assert IsDigit(t[i]);
    }
  }

  /** A zero-padded field is a non-empty digit string, so it reads back as its value. */
  lemma PaddedFieldParses(n: nat, width: nat)
    requires n < U64_LIMIT
    ensures NoSeparator(Status.Pad0(n, width))
    ensures ParseU64(Status.Pad0(n, width)) == Some(n)
  {
    var t := Status.Pad0(n, width);
    assert |t| >= |NatToString(n)| >= 1;
    assert IsDigit(t[0]);
    DigitsHaveNoSeparator(t);
  }

  /** Six separator-free fields joined as "a:b:c d:e:f" split back out. */
  lemma SixFields(a: string, b: string, c: string, d: string, e: string, f: string)
    requires NoSeparator(a) && NoSeparator(b) && NoSeparator(c)
    requires NoSeparator(d) && NoSeparator(e) && NoSeparator(f)
    ensures Fields(a + ":" + (b + ":" + (c + " " + (d + ":" + (e + ":" + f))))) == [a, b, c, d, e, f]
  {
    var t5 := e + [':'] + f;
    var t4 := d + [':'] + t5;
    var t3 := c + [' '] + t4;
    var t2 := b + [':'] + t3;
    FieldsOfField(f);
    FieldsOfJoin(e, ':', f);
    FieldsOfJoin(d, ':', t5);
    FieldsOfJoin(c, ' ', t4);
    FieldsOfJoin(b, ':', t3);
    FieldsOfJoin(a, ':', t2);
  }

  /** The six fields of a written date split back out. */
  lemma ExifTextFields(year: nat, month: nat, day: nat, hour: nat, min: nat, sec: nat)
    requires year < U64_LIMIT && month < U64_LIMIT && day < U64_LIMIT
    requires hour < U64_LIMIT && min < U64_LIMIT && sec < U64_LIMIT
    ensures Fields(ExifText(year, month, day, hour, min, sec)) ==
      [Status.Pad0(year, 4), Status.Pad0(month, 2), Status.Pad0(day, 2),
       Status.Pad0(hour, 2), Status.Pad0(min, 2), Status.Pad0(sec, 2)]
  {
    PaddedFieldParses(year, 4); PaddedFieldParses(month, 2); PaddedFieldParses(day, 2);
    PaddedFieldParses(hour, 2); PaddedFieldParses(min, 2); PaddedFieldParses(sec, 2);
    SixFields(Status.Pad0(year, 4), Status.Pad0(month, 2), Status.Pad0(day, 2),
              Status.Pad0(hour, 2), Status.Pad0(min, 2), Status.Pad0(sec, 2));
  }

  /** A well-formed date in range parses to its approximate timestamp; one
      before 1970 or with a month or day out of range gives None. */
  lemma ExifTextParses(year: nat, month: nat, day: nat, hour: nat, min: nat, sec: nat)
    requires year < U64_LIMIT && month < U64_LIMIT && day < U64_LIMIT
    requires hour < U64_LIMIT && min < U64_LIMIT && sec < U64_LIMIT
    ensures year >= 1970 && 1 <= month <= 12 && 1 <= day <= 31 ==>
      ParseExifDatetime(ExifText(year, month, day, hour, min, sec)) == Some(ApproxSeconds(year, month, day, hour, min, sec))
    ensures !(year >= 1970 && 1 <= month <= 12 && 1 <= day <= 31) ==>
      ParseExifDatetime(ExifText(year, month, day, hour, min, sec)) == None
  {
    ExifTextFields(year, month, day, hour, min, sec);
    var a, b, c := Status.Pad0(year, 4), Status.Pad0(month, 2), Status.Pad0(day, 2);
    var d, e, f := Status.Pad0(hour, 2), Status.Pad0(min, 2), Status.Pad0(sec, 2);
    PaddedFieldParses(year, 4); PaddedFieldParses(month, 2); PaddedFieldParses(day, 2);
    PaddedFieldParses(hour, 2); PaddedFieldParses(min, 2); PaddedFieldParses(sec, 2);
    if year >= 1970 && 1 <= month <= 12 && 1 <= day <= 31 {
      SixNumbersParse(a, b, c, d, e, f, year, month, day, hour, min, sec);
    } else {
      SixNumbersReject(a, b, c, d, e, f, year, month, day);
    }
  }

  /** Six fields that read as a date in range parse as those numbers. */
  lemma SixNumbersParse(a: string, b: string, c: string, d: string, e: string, f: string,
                        year: nat, month: nat, day: nat, hour: nat, min: nat, sec: nat)
    requires ParseU64(a) == Some(year) && ParseU64(b) == Some(month) && ParseU64(c) == Some(day)
    requires ParseU64(d) == Some(hour) && ParseU64(e) == Some(min) && ParseU64(f) == Some(sec)
    requires year >= 1970 && 1 <= month <= 12 && 1 <= day <= 31
    ensures ParseFields([a, b, c, d, e, f]) == Some(ApproxSeconds(year, month, day, hour, min, sec))
  {
  }

  /** Six fields whose date reads out of range are rejected. */
  lemma SixNumbersReject(a: string, b: string, c: string, d: string, e: string, f: string,
                         year: nat, month: nat, day: nat)
    requires ParseU64(a) == Some(year) && ParseU64(b) == Some(month) && ParseU64(c) == Some(day)
    requires !(year >= 1970 && 1 <= month <= 12 && 1 <= day <= 31)
    ensures ParseFields([a, b, c, d, e, f]) == None
  {
  }

  /** On one date, a later time of day (minutes and seconds below 60) gives
      a strictly larger timestamp. */
  lemma TimeOfDayOrder(year: nat, month: nat, day: nat, h1: nat, m1: nat, s1: nat, h2: nat, m2: nat, s2: nat)
    requires year >= 1970 && month >= 1
    requires m1 < 60 && s1 < 60 && m2 < 60 && s2 < 60
    requires h1 < h2 || (h1 == h2 && m1 < m2) || (h1 == h2 && m1 == m2 && s1 < s2)
    ensures ApproxSeconds(year, month, day, h1, m1, s1) < ApproxSeconds(year, month, day, h2, m2, s2)
  {
    if h1 < h2 {
      assert h1 * 3600 + 3600 <= h2 * 3600;
    }
  }

  /** Within one month a later day sorts later, whatever the times of day
      (each below 24 hours). */
  lemma DayOrder(year: nat, month: nat, d1: nat, d2: nat, h1: nat, m1: nat, s1: nat, h2: nat, m2: nat, s2: nat)
    requires year >= 1970 && month >= 1 && d1 < d2
    requires h1 < 24 && m1 < 60 && s1 < 60 && h2 < 24 && m2 < 60 && s2 < 60
    ensures ApproxSeconds(year, month, d1, h1, m1, s1) < ApproxSeconds(year, month, d2, h2, m2, s2)
  {
    var a1, a2 := ApproxDays(year, month, d1), ApproxDays(year, month, d2);
    assert a1 + 1 <= a2;
    assert a1 * 86400 + 86400 <= a2 * 86400;
  }

  /** The 30-day month makes the 31st of a month the same day as the 1st of
      the next: such dates order by time of day alone. */
  lemma ThirtyFirstMeetsFirst(year: nat, month: nat)
    requires year >= 1970 && 1 <= month < 12
    ensures ApproxDays(year, month, 31) == ApproxDays(year, month + 1, 1)
  {
  }

  // ---------------------------------------------------------------------
  // XRGB output
  // ---------------------------------------------------------------------

  /** `rgba_to_xrgb`: one 0x00RRGGBB word per pixel, alpha dropped. */
  method RgbaToXrgb(img: Pixels.RgbaImage) returns (buf: seq<Render.Word>)
    requires Pixels.Wf(img)
    ensures |buf| == img.width * img.height
    ensures forall i :: 0 <= i < |buf| ==>
      buf[i] < 0x100_0000 && Render.Red(buf[i]) == img.data[4 * i] &&
      Render.Green(buf[i]) == img.data[4 * i + 1] && Render.Blue(buf[i]) == img.data[4 * i + 2]
  {
    var n := img.width * img.height;
    buf := [];
    var i := 0;
    while i < n
      invariant 0 <= i <= n
      invariant |buf| == i
      invariant forall j :: 0 <= j < i ==>
        buf[j] < 0x100_0000 && Render.Red(buf[j]) == img.data[4 * j] &&
        Render.Green(buf[j]) == img.data[4 * j + 1] && Render.Blue(buf[j]) == img.data[4 * j + 2]
    {
      var idx := i * 4;
      var r, g, b := img.data[idx], img.data[idx + 1], img.data[idx + 2];
      Render.PackRoundTrip(r, g, b);
      buf := buf + [Render.Pack(r, g, b)];
      i := i + 1;
    }
  }

  /** Two images that differ only in alpha give the same output. */
  lemma XrgbIgnoresAlpha(a: Pixels.RgbaImage, b: Pixels.RgbaImage, i: nat, wa: Render.Word, wb: Render.Word)
    requires Pixels.Wf(a) && Pixels.Wf(b) && i < a.width * a.height && |a.data| == |b.data|
    requires a.data[4 * i] == b.data[4 * i] && a.data[4 * i + 1] == b.data[4 * i + 1] && a.data[4 * i + 2] == b.data[4 * i + 2]
    requires wa < 0x100_0000 && Render.Red(wa) == a.data[4 * i] && Render.Green(wa) == a.data[4 * i + 1] && Render.Blue(wa) == a.data[4 * i + 2]
    requires wb < 0x100_0000 && Render.Red(wb) == b.data[4 * i] && Render.Green(wb) == b.data[4 * i + 1] && Render.Blue(wb) == b.data[4 * i + 2]
    ensures wa == wb
  {
    Render.PackChannels(wa);
    Render.PackChannels(wb);
  }

  // ---------------------------------------------------------------------
  // Index wrap
  // ---------------------------------------------------------------------

  /** The index `NextImage` navigates to: one on, the first after the last. */
  function NextIndex(current: nat, len: nat): (r: nat)
    ensures current + 1 >= len ==> r == 0
    ensures current < len ==> r < len
  {
    if current + 1 >= len then 0 else current + 1
  }

  /** The index `PrevImage` navigates to: one back, the last before the first. */
  function PrevIndex(current: nat, len: nat): (r: nat)
    ensures current == 0 ==> r == Render.SatSub(len, 1)
    ensures len > 0 && current < len ==> r < len
  {
    if current == 0 then Render.SatSub(len, 1) else current - 1
  }

  /** Next and previous undo each other on a non-empty list. */
  lemma NextPrevInverse(current: nat, len: nat)
    requires current < len
    ensures PrevIndex(NextIndex(current, len), len) == current
    ensures NextIndex(PrevIndex(current, len), len) == current
  {
  }

  // ---------------------------------------------------------------------
  // Paths, current index and image cache
  // ---------------------------------------------------------------------

  type Path = string

  /** The transient message of the status bar. */
  datatype Notice = Clear | NoValidImages | Skipped(path: Path)

  /** The part of the application state the loader and navigation change.
      A cached image is recorded by the path it was decoded from. */
  datatype Session = Session(paths: seq<Path>, current: nat, cache: map<nat, Path>, notice: Notice)

  /** Every cached image belongs to the path now at its index. */
  predicate CacheAgrees(paths: seq<Path>, cache: map<nat, Path>)
  {
    forall k :: k in cache ==> k < |paths| && cache[k] == paths[k]
  }

  predicate Consistent(v: Session)
  {
    (v.paths != [] ==> v.current < |v.paths|) && CacheAgrees(v.paths, v.cache)
  }

  function RemoveAt(s: seq<Path>, i: nat): (r: seq<Path>)
    requires i < |s|
    ensures |r| == |s| - 1
    ensures forall j :: 0 <= j < |r| ==> r[j] == if j < i then s[j] else s[j + 1]
  {
    s[..i] + s[i + 1..]
  }

  /** Removing an element takes exactly one occurrence of it out. */
  lemma RemoveAtMultiset(s: seq<Path>, i: nat)
    requires i < |s|
    ensures multiset(RemoveAt(s, i)) == multiset(s) - multiset{s[i]}
  {
    assert s == s[..i] + [s[i]] + s[i + 1..];
  }

  /** The index an entry had before the path at `idx` was removed, for the
      index `j` it has after: the same below `idx`, one more from `idx` on. */
  function Unshift(j: nat, idx: nat): nat
  {
    if j < idx then j else j + 1
  }

  /** The new index of an entry at `k` other than `idx`. */
  function Shift(k: nat, idx: nat): nat
    requires k != idx
  {
    if k < idx then k else k - 1
  }

  function ShiftedKeys(cache: map<nat, Path>, idx: nat): (ks: set<nat>)
    ensures forall j :: j in ks <==> Unshift(j, idx) in cache
  {
    var ks := set k | k in cache && k != idx :: Shift(k, idx);
    assert forall j :: Unshift(j, idx) in cache ==> j in ks by {
      forall j | Unshift(j, idx) in cache ensures j in ks {
        assert Shift(Unshift(j, idx), idx) == j;
      }
    }
    ks
  }

  /** The cache after the path at `idx` is removed: keys below stay, keys
      above move down by one, `idx` itself is dropped. */
  function ShiftCache(cache: map<nat, Path>, idx: nat): (r: map<nat, Path>)
    ensures forall j :: j in r <==> Unshift(j, idx) in cache
    ensures forall j :: j in r ==> r[j] == cache[Unshift(j, idx)]
  {
    map j | j in ShiftedKeys(cache, idx) :: cache[Unshift(j, idx)]
  }

  /** Removing a path and shifting the cache keeps every cached image with
      its path. */
  lemma ShiftKeepsAgreement(paths: seq<Path>, cache: map<nat, Path>, idx: nat)
    requires idx < |paths| && CacheAgrees(paths, cache)
    ensures CacheAgrees(RemoveAt(paths, idx), ShiftCache(cache, idx))
  {
  }

  /** The drain loop of `ensure_image_loaded` that rebuilds the cache after
      the path at `idx` was removed; the keys come out in any order. */
  method Reindex(cache: map<nat, Path>, idx: nat) returns (r: map<nat, Path>)
    ensures r == ShiftCache(cache, idx)
  {
    r := map[];
    var rest := cache.Keys;
    while rest != {}
      invariant rest <= cache.Keys
      invariant forall j :: j in r <==> Unshift(j, idx) in cache && Unshift(j, idx) !in rest
      invariant forall j :: j in r ==> r[j] == cache[Unshift(j, idx)]
      decreases |rest|
    {
      var k :| k in rest;
      if k < idx {
        r := r[k := cache[k]];
      } else if k > idx {
        r := r[k - 1 := cache[k]];
      }
      rest := rest - {k};
    }
    assert r.Keys == ShiftCache(cache, idx).Keys;
  }

  /** The steps of the failure branch of `ensure_image_loaded` on the
      session's values: remove the path, rebuild the cache, clamp the index
      and set the message. */
  method DropPath(v: Session) returns (w: Session)
    requires Consistent(v) && v.paths != []
    ensures w == Drop(v)
  {
    var idx := v.current;
    var rest := RemoveAt(v.paths, idx);
    var shifted := Reindex(v.cache, idx);
    var next := if rest != [] && idx >= |rest| then 0 else idx;
    var n := if rest == [] then NoValidImages else Skipped(v.paths[idx]);
    w := Session(rest, next, shifted, n);
  }

  /** One failed load: the current path is removed, the cache shifted with
      it, the index reset to 0 when it fell off the end, and the message set. */
  function Drop(v: Session): (w: Session)
    requires Consistent(v) && v.paths != []
    ensures Consistent(w)
    ensures w.paths == RemoveAt(v.paths, v.current)
    ensures w.paths == [] ==> w.notice == NoValidImages
  {
    var paths := RemoveAt(v.paths, v.current);
    var cache := ShiftCache(v.cache, v.current);
    ShiftKeepsAgreement(v.paths, v.cache, v.current);
    if paths == [] then Session(paths, v.current, cache, NoValidImages)
    else Session(paths, if v.current >= |paths| then 0 else v.current, cache, Skipped(v.paths[v.current]))
  }

  /** What `ensure_image_loaded` leaves: the current image is cached, or it
      is decoded and cached, or its path is dropped and the next one tried,
      until one loads or none is left. */
  function Settle(v: Session, decodable: set<Path>): (r: Session)
    requires Consistent(v)
    ensures Consistent(r)
    ensures r.paths != [] ==> r.current in r.cache
    ensures v.paths == [] || v.current in v.cache ==> r == v
    ensures v.paths != [] && r.paths == [] ==> r.notice == NoValidImages
    decreases |v.paths|
  {
    if v.paths == [] || v.current in v.cache then v
    else if v.paths[v.current] in decodable then
      v.(cache := v.cache[v.current := v.paths[v.current]])
    else
      var w := Drop(v);
      if w.paths == [] then w else Settle(w, decodable)
  }

  /** Loading only ever drops paths, and only paths that fail to decode:
      a path that decodes keeps every one of its occurrences. */
  lemma {:induction false} SettleDropsOnlyFailures(v: Session, decodable: set<Path>, p: Path)
    requires Consistent(v)
    ensures multiset(Settle(v, decodable).paths)[p] <= multiset(v.paths)[p]
    ensures p in decodable ==> multiset(Settle(v, decodable).paths)[p] == multiset(v.paths)[p]
    decreases |v.paths|
  {
    if v.paths == [] || v.current in v.cache || v.paths[v.current] in decodable {
    } else {
      var w := Drop(v);
      RemoveAtCount(v.paths, v.current, p);
      if w.paths != [] {
        assert Settle(v, decodable) == Settle(w, decodable);
        SettleDropsOnlyFailures(w, decodable, p);
      } else {
        assert Settle(v, decodable) == w;
      }
    }
  }

  /** Removing the entry at `i` removes exactly one occurrence of it. */
  lemma RemoveAtCount(s: seq<Path>, i: nat, p: Path)
    requires i < |s|
    ensures multiset(RemoveAt(s, i))[p] == multiset(s)[p] - (if s[i] == p then 1 else 0)
  {
    RemoveAtMultiset(s, i);
  }

  /** The first-occurrence search `iter().position` performs. */
  method Position(s: seq<Path>, x: Path) returns (r: Option<nat>)
    ensures r.Some? ==> r.value < |s| && s[r.value] == x && forall j :: 0 <= j < r.value ==> s[j] != x
    ensures r.None? <==> x !in s
  {
    var i := 0;
    while i < |s|
      invariant 0 <= i <= |s|
      invariant forall j :: 0 <= j < i ==> s[j] != x
    {
      if s[i] == x {
        return Some(i);
      }
      i := i + 1;
    }
    return None;
  }

  /** The cache remap of `cycle_sort` as written: the image moves to its new
      index only when the index changed and it was cached; otherwise the
      cache is kept as it was. */
  function RemapCacheAsWritten(cache: map<nat, Path>, oldIndex: nat, newIndex: nat): (r: map<nat, Path>)
    ensures oldIndex != newIndex && oldIndex in cache ==> r == map[newIndex := cache[oldIndex]]
    ensures oldIndex == newIndex || oldIndex !in cache ==> r == cache
  {
    if oldIndex != newIndex && oldIndex in cache then map[newIndex := cache[oldIndex]] else cache
  }

  /** After re-sorting ["a", "b", "c"] into ["a", "c", "b"] with both "a"
      and "b" cached, the current image stays at 0 and the kept entry for 1
      still holds "b" while the path at 1 is now "c". */
  lemma StaleCacheAfterSort()
    ensures var paths, sorted := ["a", "b", "c"], ["a", "c", "b"];
      var cache := map[0 := "a", 1 := "b"];
      CacheAgrees(paths, cache) && !CacheAgrees(sorted, RemapCacheAsWritten(cache, 0, 0))
  {
    var sorted := ["a", "c", "b"];
    var cache := map[0 := "a", 1 := "b"];
    assert RemapCacheAsWritten(cache, 0, 0)[1] != sorted[1];
  }

  /** The remap with stale entries removed: only the current image is kept,
      under its new index. */
  function RemapCache(cache: map<nat, Path>, oldIndex: nat, newIndex: nat): (r: map<nat, Path>)
    ensures r.Keys <= {newIndex}
    ensures newIndex in r <==> oldIndex in cache
    ensures newIndex in r ==> r[newIndex] == cache[oldIndex]
  {
    if oldIndex in cache then map[newIndex := cache[oldIndex]] else map[]
  }

  /** After any re-sort that moves the current path from `oldIndex` to
      `newIndex`, the remapped cache agrees with the new order. */
  lemma RemapCacheAgrees(paths: seq<Path>, sorted: seq<Path>, cache: map<nat, Path>, oldIndex: nat, newIndex: nat)
    requires CacheAgrees(paths, cache)
    requires oldIndex < |paths| && newIndex < |sorted| && sorted[newIndex] == paths[oldIndex]
    ensures CacheAgrees(sorted, RemapCache(cache, oldIndex, newIndex))
  {
  }

  class App {
    var paths: seq<Path>
    var current: nat
    var cache: map<nat, Path>
    var notice: Notice
    var sortMode: SortMode

    function State(): Session
      reads this
    {
      Session(paths, current, cache, notice)
    }

    predicate Valid()
      reads this
    {
      Consistent(State())
    }

    /** `App::new`: the first image, nothing decoded yet, sorted by name. */
    constructor (initial: seq<Path>)
      ensures Valid()
      ensures paths == initial && current == 0 && cache == map[] && notice == Clear && sortMode == Name
    {
      paths, current, cache, notice, sortMode := initial, 0, map[], Clear, Name;
    }

    /** The failure branch of `ensure_image_loaded`: remove the current
      path, rebuild the cache and clamp the index. */
    method DropCurrent()
      requires Valid() && paths != []
      modifies this
      ensures Valid()
      ensures State() == Drop(old(State()))
      ensures sortMode == old(sortMode)
    {
      var w := DropPath(State());
      SetState(w);
    }

    /** Stores a session's values in the fields; the sort mode stays. */
    method SetState(w: Session)
      modifies this
      ensures State() == w && sortMode == old(sortMode)
    {
      paths, current, cache, notice := w.paths, w.current, w.cache, w.notice;
    }

    /** `ensure_image_loaded`: decode the current image or drop paths that
      fail to decode until one loads or none is left. Decoding is the set of
      paths that decode successfully. */
    method EnsureImageLoaded(decodable: set<Path>)
      requires Valid()
      modifies this
      ensures Valid()
      ensures State() == Settle(old(State()), decodable)
      ensures sortMode == old(sortMode)
    {
      while paths != []
        invariant Valid()
        invariant Settle(State(), decodable) == Settle(old(State()), decodable)
        invariant sortMode == old(sortMode)
        decreases |paths|
      {
        var idx := current;
        if idx in cache {
          return;
        }
        if paths[idx] in decodable {
          cache := cache[idx := paths[idx]];
          return;
        }
        DropCurrent();
        if paths == [] {
          return;
        }
      }
    }

    /** `navigate_to`: on a non-empty list, select `index` modulo its length,
      clear the message and load. */
    method NavigateTo(index: nat, decodable: set<Path>)
      requires Valid()
      modifies this
      ensures Valid()
      ensures old(paths) == [] ==> State() == old(State())
      ensures old(paths) != [] ==>
        State() == Settle(Session(old(paths), index % |old(paths)|, old(cache), Clear), decodable)
      ensures sortMode == old(sortMode)
    {
      if paths == [] {
        return;
      }
      current := index % |paths|;
      notice := Clear;
      EnsureImageLoaded(decodable);
    }

    /** The `NextImage` action. */
    method NextImage(decodable: set<Path>)
      requires Valid()
      modifies this
      ensures Valid()
      ensures old(paths) != [] ==>
        State() == Settle(Session(old(paths), NextIndex(old(current), |old(paths)|), old(cache), Clear), decodable)
      ensures old(paths) == [] ==> State() == old(State())
      ensures sortMode == old(sortMode)
    {
      var target := NextIndex(current, |paths|);
      if paths != [] {
        Grid.DivMod(target, |paths|, 0, target);
      }
      NavigateTo(target, decodable);
    }

    /** The `PrevImage` action. */
    method PrevImage(decodable: set<Path>)
      requires Valid()
      modifies this
      ensures Valid()
      ensures old(paths) != [] ==>
        State() == Settle(Session(old(paths), PrevIndex(old(current), |old(paths)|), old(cache), Clear), decodable)
      ensures old(paths) == [] ==> State() == old(State())
      ensures sortMode == old(sortMode)
    {
      var target := PrevIndex(current, |paths|);
      if paths != [] {
        Grid.DivMod(target, |paths|, 0, target);
      }
      NavigateTo(target, decodable);
    }

    /** The `LastImage` action. */
    method LastImage(decodable: set<Path>)
      requires Valid()
      modifies this
      ensures Valid()
      ensures old(paths) != [] ==>
        State() == Settle(Session(old(paths), |old(paths)| - 1, old(cache), Clear), decodable)
      ensures old(paths) == [] ==> State() == old(State())
      ensures sortMode == old(sortMode)
    {
      if paths != [] {
        var last := |paths| - 1;
        Grid.DivMod(last, |paths|, 0, last);
        NavigateTo(last, decodable);
      }
    }

    /** `cycle_sort`: the next sort mode, the list in its order (the sort
      itself reads file metadata and is given as `sorted`), the current path
      found again and the cache remapped with stale entries removed. */
    method CycleSort(sorted: seq<Path>)
      requires Valid()
      requires multiset(sorted) == multiset(paths)
      modifies this
      ensures Valid()
      ensures old(paths) == [] ==> State() == old(State()) && sortMode == old(sortMode)
      ensures old(paths) != [] ==>
        sortMode == Next(old(sortMode)) && paths == sorted &&
        current < |paths| && paths[current] == old(paths)[old(current)] &&
        (forall j :: 0 <= j < current ==> paths[j] != paths[current]) &&
        cache == RemapCache(old(cache), old(current), current) && notice == old(notice)
    {
      if paths == [] {
        return;
      }
      var currentPath := paths[current];
      var oldIndex := current;
      sortMode := Next(sortMode);
      assert currentPath in multiset(sorted);
      paths := sorted;
      var pos := Position(paths, currentPath);
      current := pos.value;
      RemapCacheAgrees(old(paths), paths, cache, oldIndex, current);
      cache := RemapCache(cache, oldIndex, current);
    }
  }
}
