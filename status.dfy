/** The status bar (src/status.rs): file-size and timestamp text, the
    civil-from-days date conversion of Howard Hinnant's date algorithms, and
    where the bar's overlay goes. */
module Status {
  import opened Base
  import opened Grid
  import Render

  // ---------------------------------------------------------------------
  // File size
  // ---------------------------------------------------------------------

  /** `format_file_size`: bytes below 1000, else KB or MB with one truncated decimal. */
  function FormatFileSize(bytes: nat): (s: string)
    ensures bytes < 1000 ==> s == NatToString(bytes) + " B"
    ensures 1000 <= bytes < 1_000_000 ==>
      s == NatToString(bytes / 1000) + "." + [DigitChar((bytes % 1000) / 100)] + " KB"
    ensures bytes >= 1_000_000 ==>
      s == NatToString(bytes / 1_000_000) + "." + [DigitChar((bytes % 1_000_000) / 100_000)] + " MB"
  {
    if bytes >= 1_000_000 then
      NatToString(bytes / 1_000_000) + "." + NatToString((bytes % 1_000_000) / 100_000) + " MB"
    else if bytes >= 1000 then
      NatToString(bytes / 1000) + "." + NatToString((bytes % 1000) / 100) + " KB"
    else
      NatToString(bytes) + " B"
  }

  /** The shown size is the true size truncated to one decimal of its unit:
      `whole.frac` units with `whole * unit + frac * unit/10 <= bytes`, less
      than a tenth of a unit below it. */
  lemma FileSizeTruncates(bytes: nat)
    ensures var unit := if bytes >= 1_000_000 then 1_000_000 else 1000;
      bytes >= 1000 ==>
        var whole, frac := bytes / unit, (bytes % unit) / (unit / 10);
        frac < 10 &&
        whole * unit + frac * (unit / 10) <= bytes < whole * unit + (frac + 1) * (unit / 10)
  {
  }

  // ---------------------------------------------------------------------
  // Dates
  // ---------------------------------------------------------------------

  /** A proleptic Gregorian date. */
  datatype Date = Date(year: nat, month: nat, day: nat)

  /** Within a 400-year era, Hinnant's year-of-era estimate `yoe` leaves a
      day-of-year between 0 and 365: the era splits into centuries, 4-year
      blocks and years, and the estimate finds exactly that year. */
  lemma DayOfYearInRange(doe: nat)
    requires doe < 146097
    ensures var yoe := (doe - doe / 1460 + doe / 36524 - doe / 146096) / 365;
      0 <= yoe <= 399 && 0 <= doe - (365 * yoe + yoe / 4 - yoe / 100) <= 365
  {
    var c, q, n, doy := EraParts(doe);
    var t := 100 * c + 4 * q + n;
    YearParts(c, q, n);
    YearEstimate(doe, c, q, n, doy);
    assert (doe - doe / 1460 + doe / 36524 - doe / 146096) / 365 == t;
  }

  /** An era splits into centuries `c` of 36524 days (the last one a day
      longer), 4-year blocks `q` of 1461 days, years `n` of 365 days (the last
      one a day longer) and a day of that year. */
  lemma EraParts(doe: nat) returns (c: nat, q: nat, n: nat, doy: nat)
    requires doe < 146097
    ensures c <= 3 && q <= 24 && n <= 3 && doy <= 365
    ensures doy == 365 ==> n == 3
    ensures doe == 36524 * c + 1461 * q + 365 * n + doy
    ensures doe / 36524 - doe / 146096 == c
  {
    c := if doe == 146096 then 3 else doe / 36524;
    var rc := doe - 36524 * c;
    assert 0 <= rc <= 36524;
    q := rc / 1461;
    var rq := rc - 1461 * q;
    assert rq <= 1460;
    n := if rq / 365 > 3 then 3 else rq / 365;
    doy := rq - 365 * n;
  }

  /** The year of the era `100 c + 4 q + n` and its leap-day counts. */
  lemma YearParts(c: nat, q: nat, n: nat)
    requires c <= 3 && q <= 24 && n <= 3
    ensures (100 * c + 4 * q + n) / 4 == 25 * c + q
    ensures (100 * c + 4 * q + n) / 100 == c
  {
  }

  /** The estimate `(doe - doe / 1460 + c) / 365` lands on the year of the era:
      the 4-year correction `doe / 1460` overshoots by at most one day, and
      only where the day of the year leaves room for it. */
  lemma YearEstimate(doe: nat, c: nat, q: nat, n: nat, doy: nat)
    requires c <= 3 && q <= 24 && n <= 3 && doy <= 365
    requires doy == 365 ==> n == 3
    requires doe == 36524 * c + 1461 * q + 365 * n + doy
    ensures (doe - doe / 1460 + c) / 365 == 100 * c + 4 * q + n
  {
    var rq := 365 * n + doy;
    var e := (24 * c + q + rq) / 1460;
    assert doe == 1460 * (25 * c + q) + (24 * c + q + rq);
    assert doe / 1460 == 25 * c + q + e;
    assert e == 0 || e == 1;
    assert e == 1 ==> doy >= 1;
    assert doy == 365 ==> e == 1;
    assert doe - doe / 1460 + c == 365 * (100 * c + 4 * q + n) + (doy - e);
  }

  /** `days_to_date`: the civil date `days` days after 1970-01-01. */
  function DaysToDate(days: nat): (date: Date)
    ensures 1 <= date.month <= 12 && 1 <= date.day <= 31
    ensures date.year >= 1970
  {
    EraOfDays(days);
    var z := days + 719468;
    var era := z / 146097;
    CivilInEra(era, z - era * 146097)
  }

  /** Day zero falls 135080 days into era 4, so every day from the epoch on
      falls in era 4 at or after that day or in a later era. */
  lemma EraOfDays(days: nat)
    ensures var z := days + 719468; var era := z / 146097;
      era >= 4 && 0 <= z - era * 146097 < 146097 && (era == 4 ==> z - era * 146097 >= 135080)
  {
    var z := days + 719468;
    assert z == z / 146097 * 146097 + z % 146097;
  }

  /** The second half of `days_to_date`: the date `doe` days into the
      400-year era `era` (eras start on 1 March). */
  function CivilInEra(era: nat, doe: nat): (date: Date)
    requires doe < 146097
    ensures 1 <= date.month <= 12 && 1 <= date.day <= 31
    ensures date.year >= 400 * era
    ensures doe >= 135080 ==> date.year >= 400 * era + 370
  {
    var yoe := YearOfEra(doe);
    var y := yoe + era * 400;
    var doy := doe - (365 * yoe + yoe / 4 - yoe / 100);
    var md := MonthDay(doy);
    LateInEra(doe);
    Date(if md.0 <= 2 then y + 1 else y, md.0, md.1)
  }

  /** Hinnant's year-of-era estimate: the year, counted from 1 March of the
      era's first year, that day `doe` of the era falls in. */
  function YearOfEra(doe: nat): (yoe: nat)
    requires doe < 146097
    ensures yoe <= 399
    ensures 0 <= doe - (365 * yoe + yoe / 4 - yoe / 100) <= 365
  {
    DayOfYearInRange(doe);
    (doe - doe / 1460 + doe / 36524 - doe / 146096) / 365
  }

  /** The month and day of day `doy` of a March-based year. */
  function MonthDay(doy: nat): (md: (nat, nat))
    requires doy <= 365
    ensures 1 <= md.0 <= 12 && 1 <= md.1 <= 31
    ensures md.0 <= 2 <==> doy >= 306
    ensures (153 * (if md.0 > 2 then md.0 - 3 else md.0 + 9) + 2) / 5 + md.1 - 1 == doy
  {
    var mp := (5 * doy + 2) / 153;
    assert 153 * mp <= 5 * doy + 2 < 153 * mp + 153;
    assert mp <= 11;
    var d := doy - (153 * mp + 2) / 5 + 1;
    var m := if mp < 10 then mp + 3 else mp - 9;
    (m, d)
  }

  /** From day 135080 of an era on (1 January of its 370th year), the year of
      the era is at least 370, or 369 with a day in January or February. */
  lemma LateInEra(doe: nat)
    requires doe < 146097
    ensures var yoe := YearOfEra(doe);
      doe >= 135080 ==> yoe >= 370 || (yoe == 369 && doe - (365 * yoe + yoe / 4 - yoe / 100) >= 306)
  {
  }

  /** Day zero is the epoch. */
  lemma EpochIsNewYear1970()
    ensures DaysToDate(0) == Date(1970, 1, 1)
  {
    assert (0 + 719468) / 146097 == 4;
    EpochInEra();
  }

  /** 1970-01-01 is day 135080 of the era that began on 1600-03-01. */
  lemma EpochInEra()
    ensures CivilInEra(4, 135080) == Date(1970, 1, 1)
  {
    assert YearOfEra(135080) == 369;
    assert 135080 - (365 * 369 + 369 / 4 - 369 / 100) == 306;
    assert (5 * 306 + 2) / 153 == 10;
    assert MonthDay(306) == (1, 1);
  }

  /** The inverse conversion, days-from-civil from the same algorithms: the
      number of days from 1970-01-01 to `date`. */
  function DaysFromCivil(date: Date): int
    requires date.year >= 1
  {
    var y := if date.month <= 2 then date.year - 1 else date.year;
    var era := y / 400;
    var yoe := y - era * 400;
    var mp := if date.month > 2 then date.month - 3 else date.month + 9;
    var doy := (153 * mp + 2) / 5 + date.day - 1;
    var doe := yoe * 365 + yoe / 4 - yoe / 100 + doy;
    era * 146097 + doe - 719468
  }

  /** Counting the days to the date `days_to_date` gives returns the input. */
  lemma DaysToDateRoundTrip(days: nat)
    ensures DaysFromCivil(DaysToDate(days)) == days
  {
    var z := days + 719468;
    var era := z / 146097;
    var doe := z - era * 146097;
    EraOfDays(days);
    assert DaysToDate(days) == CivilInEra(era, doe);
    CivilInEraRoundTrip(era, doe);
  }

  /** Within one era the conversion is undone by `DaysFromCivil`. */
  lemma CivilInEraRoundTrip(era: nat, doe: nat)
    requires era >= 1 && doe < 146097
    ensures DaysFromCivil(CivilInEra(era, doe)) == era * 146097 + doe - 719468
  {
    var yoe := YearOfEra(doe);
    EraOfYear(era, yoe);
    var doy := doe - (365 * yoe + yoe / 4 - yoe / 100);
    var md := MonthDay(doy);
    var date := CivilInEra(era, doe);
    assert date == Date(if md.0 <= 2 then yoe + era * 400 + 1 else yoe + era * 400, md.0, md.1);
    DaysFromCivilParts(date, era, yoe, doy);
  }

  /** `DaysFromCivil` of a date whose March-based year is `yoe` into era
      `era` and whose March-based day of year is `doy`. */
  lemma DaysFromCivilParts(date: Date, era: nat, yoe: nat, doy: nat)
    requires date.year >= 1 && yoe <= 399 && 1 <= date.month <= 12
    requires (if date.month <= 2 then date.year - 1 else date.year) == yoe + era * 400
    requires (153 * (if date.month > 2 then date.month - 3 else date.month + 9) + 2) / 5 + date.day - 1 == doy
    ensures DaysFromCivil(date) == era * 146097 + (yoe * 365 + yoe / 4 - yoe / 100 + doy) - 719468
  {
    EraOfYear(era, yoe);
  }

  /** A year `yoe` into era `era` lies in that era. */
  lemma EraOfYear(era: nat, yoe: nat)
    requires yoe <= 399
    ensures (yoe + era * 400) / 400 == era
  {
  }

  // ---------------------------------------------------------------------
  // Timestamps
  // ---------------------------------------------------------------------

  /** `k` zero digits. */
  function Zeros(k: nat): (z: string)
    ensures |z| == k
  {
    if k == 0 then [] else Zeros(k - 1) + "0"
  }

  /** `format!("{:0w$}", n)`: the digits of `n`, zero-padded on the left to `width`. */
  function Pad0(n: nat, width: nat): (s: string)
    ensures |s| == if |NatToString(n)| < width then width else |NatToString(n)|
    ensures AllDigits(s) && DigitsValue(s) == n
  {
    var digits := NatToString(n);
    DigitsValueOfNatToString(n);
    if |digits| < width then
      LeadingZeros(width - |digits|, digits);
      Zeros(width - |digits|) + digits
    else digits
  }

  /** Leading zeros do not change the value of a digit string. */
  lemma {:induction false} LeadingZeros(k: nat, t: string)
    requires AllDigits(t)
    ensures AllDigits(Zeros(k) + t)
    ensures DigitsValue(Zeros(k) + t) == DigitsValue(t)
    decreases |t|
  {
    var s := Zeros(k) + t;
    if t == [] {
      assert s == Zeros(k);
      AllZeros(k);
    } else {
      LeadingZeros(k, t[..|t| - 1]);
      assert s[..|s| - 1] == Zeros(k) + t[..|t| - 1];
    }
  }

  lemma {:induction false} AllZeros(k: nat)
    ensures AllDigits(Zeros(k)) && DigitsValue(Zeros(k)) == 0
  {
    if k > 0 {
      AllZeros(k - 1);
      assert Zeros(k)[..k - 1] == Zeros(k - 1);
    }
  }

  /** The hour and minute of the day of a timestamp. */
  function ClockOf(secs: nat): (hm: (nat, nat))
    ensures hm.0 < 24 && hm.1 < 60
    ensures hm.0 * 3600 + hm.1 * 60 <= secs % 86400 < hm.0 * 3600 + hm.1 * 60 + 60
  {
    var timeOfDay := secs % 86400;
    (timeOfDay / 3600, (timeOfDay % 3600) / 60)
  }

  /** "YYYY-MM-DD hh:mm", each field zero-padded. */
  function Timestamp(date: Date, hours: nat, minutes: nat): string
  {
    DatePart(date) + " " + ClockPart(hours, minutes)
  }

  function DatePart(date: Date): string
  {
    Pad0(date.year, 4) + "-" + Pad0(date.month, 2) + "-" + Pad0(date.day, 2)
  }

  function ClockPart(hours: nat, minutes: nat): string
  {
    Pad0(hours, 2) + ":" + Pad0(minutes, 2)
  }

  /** `format_system_time` for a time `secs` whole seconds after the epoch;
      a time before the epoch prints as "?". */
  function FormatSystemTime(secs: int): (s: string)
    ensures secs < 0 ==> s == "?"
  {
    if secs < 0 then "?"
    else
      var hm := ClockOf(secs);
      Timestamp(DaysToDate(secs / 86400), hm.0, hm.1)
  }

  /** Up to year 9999 a timestamp is 16 characters with its separators at
      fixed places, and each field reads back as the value it came from. */
  lemma TimestampFields(date: Date, hours: nat, minutes: nat)
    requires date.year < 10000 && date.month < 100 && date.day < 100 && hours < 100 && minutes < 100
    ensures var s := Timestamp(date, hours, minutes);
      |s| == 16 && s[4] == '-' && s[7] == '-' && s[10] == ' ' && s[13] == ':' &&
      AllDigits(s[0..4]) && DigitsValue(s[0..4]) == date.year &&
      AllDigits(s[5..7]) && DigitsValue(s[5..7]) == date.month &&
      AllDigits(s[8..10]) && DigitsValue(s[8..10]) == date.day &&
      AllDigits(s[11..13]) && DigitsValue(s[11..13]) == hours &&
      AllDigits(s[14..16]) && DigitsValue(s[14..16]) == minutes
  {
    DatePartFields(date);
    ClockPartFields(hours, minutes);
    var dp, cp := DatePart(date), ClockPart(hours, minutes);
    var s := dp + " " + cp;
    assert s[..10] == dp;
    assert s == (dp + " ") + cp + [];
    Middle(dp + " ", cp, []);
    assert s[0..4] == dp[0..4];
    assert s[5..7] == dp[5..7];
    assert s[8..10] == dp[8..10];
    assert s[11..13] == cp[0..2];
    assert s[14..16] == cp[3..5];
  }

  /** Reading a timestamp before year 10000 back gives the time it was made
      from to the minute: the date fields count the whole days since the
      epoch and the clock fields the seconds into that day, less than a
      minute short. */
  lemma SystemTimeReadsBack(secs: nat)
    requires DaysToDate(secs / 86400).year < 10000
    ensures var s := FormatSystemTime(secs);
      |s| == 16 && AllDigits(s[0..4]) && AllDigits(s[5..7]) && AllDigits(s[8..10]) &&
      AllDigits(s[11..13]) && AllDigits(s[14..16]) &&
      var date := Date(DigitsValue(s[0..4]), DigitsValue(s[5..7]), DigitsValue(s[8..10]));
      date.year >= 1 &&
      var t := DaysFromCivil(date) * 86400 + DigitsValue(s[11..13]) * 3600 + DigitsValue(s[14..16]) * 60;
      t <= secs < t + 60
  {
    var date := DaysToDate(secs / 86400);
    var hm := ClockOf(secs);
    TimestampFields(date, hm.0, hm.1);
    DaysToDateRoundTrip(secs / 86400);
  }

  lemma DatePartFields(date: Date)
    requires date.year < 10000 && date.month < 100 && date.day < 100
    ensures var s := DatePart(date);
      |s| == 10 && s[4] == '-' && s[7] == '-' &&
      AllDigits(s[0..4]) && DigitsValue(s[0..4]) == date.year &&
      AllDigits(s[5..7]) && DigitsValue(s[5..7]) == date.month &&
      AllDigits(s[8..10]) && DigitsValue(s[8..10]) == date.day
  {
    Pad0Exact(date.year, 4);
    Pad0Exact(date.month, 2);
    Pad0Exact(date.day, 2);
    Split3(Pad0(date.year, 4), '-', Pad0(date.month, 2), '-', Pad0(date.day, 2));
  }

  lemma ClockPartFields(hours: nat, minutes: nat)
    requires hours < 100 && minutes < 100
    ensures var s := ClockPart(hours, minutes);
      |s| == 5 && s[2] == ':' &&
      AllDigits(s[0..2]) && DigitsValue(s[0..2]) == hours &&
      AllDigits(s[3..5]) && DigitsValue(s[3..5]) == minutes
  {
    Pad0Exact(hours, 2);
    Pad0Exact(minutes, 2);
    var h, mi := Pad0(hours, 2), Pad0(minutes, 2);
    var s := h + ":" + mi;
    assert s[0..2] == h;
    assert s == (h + ":") + mi + [];
    Middle(h + ":", mi, []);
  }

  /** A number below `10^k` padded to `k` digits takes exactly `k`. */
  lemma Pad0Exact(n: nat, k: nat)
    requires k >= 1 && n < Pow10(k)
    ensures |Pad0(n, k)| == k && AllDigits(Pad0(n, k)) && DigitsValue(Pad0(n, k)) == n
  {
    DigitsBound(n, k);
  }

  /** Three fields joined by two separators are found back at their places. */
  lemma Split3(a: string, x: char, b: string, y: char, c: string)
    ensures var s := a + [x] + b + [y] + c;
      |s| == |a| + |b| + |c| + 2 &&
      s[..|a|] == a && s[|a|] == x && s[|a| + 1..|a| + 1 + |b|] == b &&
      s[|a| + 1 + |b|] == y && s[|a| + 2 + |b|..] == c
  {
    var s := a + [x] + b + [y] + c;
    assert s == (a + [x]) + b + ([y] + c);
    Middle(a + [x], b, [y] + c);
  }

  lemma Middle(a: string, b: string, c: string)
    ensures (a + b + c)[|a|..|a| + |b|] == b
  {
    assert (a + b + c)[|a|..|a| + |b|] == (a + b)[|a|..];
  }

  /** A number below `10^k` has at most `k` digits. */
  lemma {:induction false} DigitsBound(n: nat, k: nat)
    requires k >= 1 && n < Pow10(k)
    ensures |NatToString(n)| <= k
    decreases k
  {
    if n >= 10 {
      assert k >= 2;
      DigitsBound(n / 10, k - 1);
    }
  }

  function Pow10(k: nat): (p: nat)
    ensures p >= 1
  {
    if k == 0 then 1 else 10 * Pow10(k - 1)
  }

  // ---------------------------------------------------------------------
  // Status bar
  // ---------------------------------------------------------------------

  /** The overlay rectangle of the status bar: full rows from `y` down, `w` wide, `h` high. */
  datatype Bar = Bar(y: nat, w: nat, h: nat)

  /** The geometry of `draw_status_bar` for a text of `textLen` bytes, with
      glyph cells `glyphW` by `glyphH`; nothing is drawn into an empty buffer. */
  function StatusBarRect(bufW: nat, bufH: nat, textLen: nat, glyphW: nat, glyphH: nat): (r: Option<Bar>)
    ensures r.None? <==> bufW == 0 || bufH == 0
    ensures r.Some? ==> r.value.h == glyphH + 6 && r.value.w <= bufW
    ensures r.Some? ==> r.value.w == bufW || r.value.w == textLen * glyphW + 12
    ensures r.Some? ==> r.value.w == if textLen * glyphW + 12 < bufW then textLen * glyphW + 12 else bufW
    ensures r.Some? && bufH >= glyphH + 6 ==> r.value.y + r.value.h == bufH
    ensures r.Some? && bufH < glyphH + 6 ==> r.value.y == 0
  {
    if bufW == 0 || bufH == 0 then None
    else
      var barH := glyphH + 6;
      var textWidth := textLen * glyphW + 12;
      Some(Bar(Render.SatSub(bufH, barH), if textWidth < bufW then textWidth else bufW, barH))
  }

  /** `draw_status_bar` without the glyphs: the overlay at opacity 160 over the bar. */
  method DrawStatusBar(buf: array<Render.Word>, bufW: nat, bufH: nat, textLen: nat, glyphW: nat, glyphH: nat)
    requires buf.Length < U32_LIMIT && bufH < U32_LIMIT
    modifies buf
    ensures StatusBarRect(bufW, bufH, textLen, glyphW, glyphH).None? ==> buf[..] == old(buf[..])
    ensures StatusBarRect(bufW, bufH, textLen, glyphW, glyphH).Some? ==>
      var bar := StatusBarRect(bufW, bufH, textLen, glyphW, glyphH).value;
      forall c: nat, r: nat :: c < bufW && Index(bufW, c, r) < buf.Length ==>
        buf[Index(bufW, c, r)] ==
          if Render.InRect(bufW, buf.Length / bufW, 0, bar.y, bar.w, bar.h, c, r) then Render.Darken(old(buf[Index(bufW, c, r)]), 160)
          else old(buf[Index(bufW, c, r)])
  {
    if bufW == 0 || bufH == 0 {
      return;
    }
    var barH := glyphH + 6;
    var barY := Render.SatSub(bufH, barH);
    var textWidth := textLen * glyphW + 12;
    var barW := if textWidth < bufW then textWidth else bufW;
    Render.DrawOverlay(buf, bufW, 0, barY, barW, barH, 160);
  }
}
