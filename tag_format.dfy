/** How the EXIF panel prints tag values (src/image_loader.rs): names for the
    enumerated SHORT tags of Exif 2.2 and TIFF 6.0, and the integer branches
    of the RATIONAL and SRATIONAL formatting. Where the source prints a
    floating-point quotient, the model records which quotient, with its
    prefix and suffix, instead of its digits. */
module TagFormat {
  import opened Base

  /** A printed value: literal text, or `prefix + decimal(num / den) + suffix`. */
  datatype TagText = Text(s: string) | Decimal(prefix: string, num: int, den: int, suffix: string)

  const TAG_ORIENTATION: nat := 0x0112
  const TAG_X_RESOLUTION: nat := 0x011A
  const TAG_Y_RESOLUTION: nat := 0x011B
  const TAG_EXPOSURE_TIME: nat := 0x829A
  const TAG_F_NUMBER: nat := 0x829D
  const TAG_EXPOSURE_BIAS: nat := 0x9204
  const TAG_METERING_MODE: nat := 0x9207
  const TAG_FLASH: nat := 0x9209
  const TAG_FOCAL_LENGTH: nat := 0x920A
  const TAG_COLOR_SPACE: nat := 0xA001
  const TAG_EXPOSURE_MODE: nat := 0xA402
  const TAG_WHITE_BALANCE: nat := 0xA403

  /** The SHORT tags printed by name. */
  predicate NamedShortTag(tag: nat)
  {
    tag in {TAG_ORIENTATION, TAG_METERING_MODE, TAG_FLASH, TAG_COLOR_SPACE, TAG_EXPOSURE_MODE, TAG_WHITE_BALANCE}
  }

  /** The name `format_tag_short` prints for an enumerated value, if any. */
  function ShortName(tag: nat, val: nat): (r: Option<string>)
    ensures !NamedShortTag(tag) ==> r.None?
    ensures tag == TAG_FLASH ==> r.Some?
    ensures r.Some? ==> |r.value| > 0 && !IsDigit(r.value[0])
    ensures tag == TAG_ORIENTATION ==> (r.Some? <==> 1 <= val <= 8)
    ensures tag == TAG_METERING_MODE ==> (r.Some? <==> val <= 6)
    ensures tag == TAG_COLOR_SPACE ==> (r.Some? <==> val == 1 || val == 0xFFFF)
    ensures tag == TAG_EXPOSURE_MODE ==> (r.Some? <==> val <= 2)
    ensures tag == TAG_WHITE_BALANCE ==> (r.Some? <==> val <= 1)
  {
    if tag == TAG_ORIENTATION then
      match val
      case 1 => Some("Normal")
      case 2 => Some("Flipped horizontally")
      case 3 => Some("Rotated 180")
      case 4 => Some("Flipped vertically")
      case 5 => Some("Transposed")
      case 6 => Some("Rotated 90 CW")
      case 7 => Some("Transversed")
      case 8 => Some("Rotated 270 CW")
      case _ => None
    else if tag == TAG_METERING_MODE then
      match val
      case 0 => Some("Unknown")
      case 1 => Some("Average")
      case 2 => Some("Center-weighted")
      case 3 => Some("Spot")
      case 4 => Some("Multi-spot")
      case 5 => Some("Pattern")
      case 6 => Some("Partial")
      case _ => None
    else if tag == TAG_FLASH then
      if val % 2 == 0 then Some("No flash") else Some("Flash fired")
    else if tag == TAG_COLOR_SPACE then
      match val
      case 1 => Some("sRGB")
      case 0xFFFF => Some("Uncalibrated")
      case _ => None
    else if tag == TAG_EXPOSURE_MODE then
      match val
      case 0 => Some("Auto")
      case 1 => Some("Manual")
      case 2 => Some("Auto bracket")
      case _ => None
    else if tag == TAG_WHITE_BALANCE then
      match val
      case 0 => Some("Auto")
      case 1 => Some("Manual")
      case _ => None
    else None
  }

  /** `format_tag_short`: the name of an enumerated value, otherwise its decimal digits. */
  function FormatTagShort(tag: nat, val: nat): (s: string)
    ensures !NamedShortTag(tag) ==> s == NatToString(val)
    ensures ShortName(tag, val).None? ==> s == NatToString(val)
    ensures ShortName(tag, val).Some? ==> s == ShortName(tag, val).value
  {
    match ShortName(tag, val)
    case Some(name) => name
    case None => NatToString(val)
  }

  /** The Flash tag is a bit field; only bit 0 (flash fired) is shown. */
  lemma FlashShowsOnlyBit0(v: nat, v': nat)
    requires v % 2 == v' % 2
    ensures FormatTagShort(TAG_FLASH, v) == FormatTagShort(TAG_FLASH, v')
    ensures FormatTagShort(TAG_FLASH, v) == (if v % 2 == 1 then "Flash fired" else "No flash")
  {
  }

  /** No value is lost: a printed SHORT is a name, or its digits read back as the value. */
  lemma TagShortDigitsReadBack(tag: nat, val: nat)
    requires val < U64_LIMIT
    ensures AllDigits(FormatTagShort(tag, val)) ==> ParseU64(FormatTagShort(tag, val)) == Some(val)
    ensures !AllDigits(FormatTagShort(tag, val)) ==> NamedShortTag(tag)
  {
    ParseU64OfNatToString(val);
  }

  /** `format_rational` (unsigned numerator and denominator). */
  function FormatRational(tag: nat, num: nat, den: nat): (t: TagText)
    ensures den == 0 ==> t == Text("0")
    ensures den != 0 && (tag == TAG_X_RESOLUTION || tag == TAG_Y_RESOLUTION) ==>
      t == Text(NatToString(num / den) + " dpi")
    ensures den != 0 && tag == TAG_EXPOSURE_TIME && num == 0 ==> t == Text("0s")
    ensures den != 0 && tag == TAG_EXPOSURE_TIME && 0 < num < den ==>
      t == Text("1/" + NatToString(den / num) + "s")
    ensures den != 0 && tag == TAG_EXPOSURE_TIME && 0 < den <= num ==> t == Decimal("", num, den, "s")
    ensures den != 0 && tag == TAG_F_NUMBER ==> t == Decimal("f/", num, den, "")
    ensures den != 0 && tag == TAG_FOCAL_LENGTH ==> t == Decimal("", num, den, "mm")
    ensures den != 0 && GenericRationalTag(tag) ==>
      t == Text(if den == 1 then NatToString(num) else NatToString(num) + "/" + NatToString(den))
  {
    if den == 0 then Text("0")
    else if tag == TAG_EXPOSURE_TIME then
      if num == 0 then Text("0s")
      else if num >= den then Decimal("", num, den, "s")
      else Text("1/" + NatToString(den / num) + "s")
    else if tag == TAG_F_NUMBER then Decimal("f/", num, den, "")
    else if tag == TAG_FOCAL_LENGTH then Decimal("", num, den, "mm")
    else if tag == TAG_X_RESOLUTION || tag == TAG_Y_RESOLUTION then Text(NatToString(num / den) + " dpi")
    else if den == 1 then Text(NatToString(num))
    else Text(NatToString(num) + "/" + NatToString(den))
  }

  /** A tag printed with the generic rational rule. */
  predicate GenericRationalTag(tag: nat)
  {
    tag !in {TAG_EXPOSURE_TIME, TAG_F_NUMBER, TAG_FOCAL_LENGTH, TAG_X_RESOLUTION, TAG_Y_RESOLUTION}
  }

  /** The exposure time shown as 1/r seconds brackets the true time t = num/den:
      1/(r+1) < t <= 1/r. */
  lemma ExposureFractionBrackets(num: nat, den: nat)
    requires 0 < num < den
    ensures den / num >= 1
    ensures (den / num) * num <= den < (den / num + 1) * num
  {
    var r := den / num;
    assert r * num + den % num == den;
  }

  /** The position of the first `c` in `s`. */
  function IndexOf(s: string, c: char): (r: Option<nat>)
    ensures r.Some? ==> r.value < |s| && s[r.value] == c && forall j :: 0 <= j < r.value ==> s[j] != c
    ensures r.None? ==> forall j :: 0 <= j < |s| ==> s[j] != c
  {
    if s == [] then None
    else if s[0] == c then Some(0)
    else match IndexOf(s[1..], c)
      case None => None
      case Some(i) => Some(i + 1)
  }

  /** Reads "n" or "n/d" back into a numerator and denominator. */
  function ParseRationalText(s: string): Option<(nat, nat)>
  {
    match IndexOf(s, '/')
    case None =>
      (match ParseU64(s) case None => None case Some(n) => Some((n, 1)))
    case Some(i) =>
      match (ParseU64(s[..i]), ParseU64(s[i + 1..]))
      case (Some(n), Some(d)) => Some((n, d))
      case _ => None
  }

  /** The generic rule prints exactly enough to recover the fraction. */
  lemma GenericRationalReadsBack(tag: nat, num: nat, den: nat)
    requires GenericRationalTag(tag) && 0 < den && num < U64_LIMIT && den < U64_LIMIT
    ensures FormatRational(tag, num, den).Text?
    ensures FormatRational(tag, num, den).s ==
      (if den == 1 then NatToString(num) else NatToString(num) + "/" + NatToString(den))
    ensures ParseRationalText(FormatRational(tag, num, den).s) == Some((num, den))
  {
    if den == 1 {
      assert FormatRational(tag, num, den) == Text(NatToString(num));
      WholeReadsBack(num);
    } else {
      assert FormatRational(tag, num, den) == Text(NatToString(num) + "/" + NatToString(den));
      FractionReadsBack(num, den);
    }
  }

  /** A plain number reads back with denominator 1. */
  lemma WholeReadsBack(num: nat)
    requires num < U64_LIMIT
    ensures ParseRationalText(NatToString(num)) == Some((num, 1))
  {
    var n := NatToString(num);
    ParseU64OfNatToString(num);
    assert forall j :: 0 <= j < |n| ==> n[j] != '/' by {
      forall j | 0 <= j < |n| ensures n[j] != '/' {
        assert IsDigit(n[j]);
      }
    }
  }

  /** "n/d" reads back as the fraction n/d. */
  lemma FractionReadsBack(num: nat, den: nat)
    requires num < U64_LIMIT && den < U64_LIMIT
    ensures ParseRationalText(NatToString(num) + "/" + NatToString(den)) == Some((num, den))
  {
    ParseU64OfNatToString(num);
    ParseU64OfNatToString(den);
    SlashAfterDigits(NatToString(num), NatToString(den));
  }

  /** In "n/d" with n all digits, the first '/' is the one after n. */
  lemma SlashAfterDigits(n: string, d: string)
    requires AllDigits(n)
    ensures IndexOf(n + "/" + d, '/') == Some(|n|)
    ensures (n + "/" + d)[..|n|] == n && (n + "/" + d)[|n| + 1..] == d
  {
    var s := n + "/" + d;
    forall j | 0 <= j < |n| ensures s[j] != '/' {
      assert s[j] == n[j] && IsDigit(n[j]);
    }
    assert s[|n|] == '/';
    assert s[..|n|] == n;
    assert s[|n| + 1..] == d;
  }

  /** `format_srational` (signed numerator and denominator). */
  function FormatSRational(tag: nat, num: int, den: int): (t: TagText)
    ensures den == 0 ==> t == Text("0")
    ensures den != 0 && tag == TAG_EXPOSURE_BIAS ==>
      t == Decimal(if num == 0 || (num > 0) == (den > 0) then "+" else "", num, den, " EV")
    ensures den != 0 && tag != TAG_EXPOSURE_BIAS ==>
      t == Text(if den == 1 then IntToString(num) else IntToString(num) + "/" + IntToString(den))
  {
    if den == 0 then Text("0")
    else if tag == TAG_EXPOSURE_BIAS then
      // ev = num / den is non-negative (0.0 and -0.0 included) exactly when
      // the signs agree or the numerator is zero
      if num == 0 || (num > 0) == (den > 0) then Decimal("+", num, den, " EV")
      else Decimal("", num, den, " EV")
    else if den == 1 then Text(IntToString(num))
    else Text(IntToString(num) + "/" + IntToString(den))
  }

  /** On non-negative values the signed formatter prints what the unsigned one does. */
  lemma SRationalAgreesWithRational(tag: nat, num: nat, den: nat)
    requires GenericRationalTag(tag) && tag != TAG_EXPOSURE_BIAS
    ensures FormatSRational(tag, num, den) == FormatRational(tag, num, den)
  {
  }
}
