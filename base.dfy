/** Shared vocabulary of the model: bytes, machine-width bounds, an optional
    value, bounds-checked endian-aware integer reads over a byte slice and the
    decimal text that Rust's `{}` formatting and `str::parse::<u64>` produce. */
module Base {

  /** An 8-bit unsigned value (`u8`). */
  type Byte = b: int | 0 <= b < 256

  const U16_LIMIT: int := 0x1_0000
  const U32_LIMIT: int := 0x1_0000_0000
  const U64_LIMIT: int := 0x1_0000_0000_0000_0000

  datatype Option<+T> = None | Some(value: T)

  /** A value or the reason there is none, as Rust's `Result`. */
  datatype Result<+T, +E> = Ok(value: T) | Err(error: E)

  // ---------------------------------------------------------------------
  // Endian-aware reads. Every read is bounds-checked against the slice and
  // yields None instead of indexing past its end.
  // ---------------------------------------------------------------------

  /** A 16-bit unsigned read at `off`, little-endian when `le`, else big-endian. */
  function ReadU16(d: seq<Byte>, off: nat, le: bool): (r: Option<nat>)
    ensures r.Some? <==> off + 2 <= |d|
    ensures r.Some? ==> r.value < U16_LIMIT
    ensures r.Some? && le ==> r.value % 256 == d[off] && r.value / 256 == d[off + 1]
    ensures r.Some? && !le ==> r.value % 256 == d[off + 1] && r.value / 256 == d[off]
  {
    if off + 2 > |d| then None
    else if le then Some(d[off] as int + 256 * d[off + 1] as int)
    else Some(256 * d[off] as int + d[off + 1])
  }

  /** A 32-bit unsigned read at `off`, little-endian when `le`, else big-endian. */
  function ReadU32(d: seq<Byte>, off: nat, le: bool): (r: Option<nat>)
    ensures r.Some? <==> off + 4 <= |d|
    ensures r.Some? ==> r.value < U32_LIMIT
    ensures r.Some? && le ==> ByteDigits(r.value) == (d[off], d[off + 1], d[off + 2], d[off + 3])
    ensures r.Some? && !le ==> ByteDigits(r.value) == (d[off + 3], d[off + 2], d[off + 1], d[off])
  {
    if off + 4 > |d| then None
    else if le then
      WordOfBytes(d[off], d[off + 1], d[off + 2], d[off + 3]);
      Some(d[off] as int + 0x100 * d[off + 1] as int + 0x1_0000 * d[off + 2] as int + 0x100_0000 * d[off + 3] as int)
    else
      WordOfBytes(d[off + 3], d[off + 2], d[off + 1], d[off]);
      Some(0x100_0000 * d[off] as int + 0x1_0000 * d[off + 1] as int + 0x100 * d[off + 2] as int + d[off + 3] as int)
  }

  /** The four base-256 digits of a 32-bit value, least significant first. */
  function ByteDigits(v: nat): (int, int, int, int)
  {
    (v % 0x100, (v / 0x100) % 0x100, (v / 0x1_0000) % 0x100, v / 0x100_0000)
  }

  /** Four bytes, least significant first, make a 32-bit value whose
      base-256 digits are those bytes. */
  lemma WordOfBytes(b0: Byte, b1: Byte, b2: Byte, b3: Byte)
    ensures var v := b0 as int + 0x100 * b1 as int + 0x1_0000 * b2 as int + 0x100_0000 * b3 as int;
      v < U32_LIMIT && ByteDigits(v) == (b0 as int, b1 as int, b2 as int, b3 as int)
  {
    var v := b0 as int + 0x100 * b1 as int + 0x1_0000 * b2 as int + 0x100_0000 * b3 as int;
    var h1 := b1 as int + 0x100 * b2 as int + 0x1_0000 * b3 as int;
    var h2 := b2 as int + 0x100 * b3 as int;
    assert v == b0 as int + 0x100 * h1;
    assert v / 0x100 == h1 && v % 0x100 == b0 as int;
    assert h1 / 0x100 == h2 && h1 % 0x100 == b1 as int;
    assert v / 0x1_0000 == h2;
    assert h2 % 0x100 == b2 as int;
    assert v / 0x100_0000 == b3 as int;
  }

  /** Reinterprets a 32-bit pattern as a two's-complement `i32`. */
  function AsI32(u: nat): (r: int)
    requires u < U32_LIMIT
    ensures -0x8000_0000 <= r < 0x8000_0000
    ensures r % U32_LIMIT == u
  {
    if u < 0x8000_0000 then u else u - U32_LIMIT
  }

  /** A 32-bit signed read at `off`. */
  function ReadI32(d: seq<Byte>, off: nat, le: bool): (r: Option<int>)
    ensures r.Some? <==> off + 4 <= |d|
    ensures r.Some? ==> -0x8000_0000 <= r.value < 0x8000_0000
    ensures r.Some? ==> r.value % U32_LIMIT == ReadU32(d, off, le).value
  {
    match ReadU32(d, off, le)
    case None => None
    case Some(u) => Some(AsI32(u))
  }

  // ---------------------------------------------------------------------
  // Decimal text
  // ---------------------------------------------------------------------

  predicate IsDigit(c: char) { '0' <= c <= '9' }

  predicate AllDigits(s: string) { forall i :: 0 <= i < |s| ==> IsDigit(s[i]) }

  function DigitChar(d: nat): (c: char)
    requires d < 10
    ensures IsDigit(c) && c as int - '0' as int == d
  {
    ['0', '1', '2', '3', '4', '5', '6', '7', '8', '9'][d]
  }

  /** The decimal rendering of `n`, as `format!("{}", n)` gives it. */
  function NatToString(n: nat): (s: string)
    ensures |s| >= 1 && AllDigits(s)
    ensures n < 10 <==> |s| == 1
    decreases n
  {
    if n < 10 then [DigitChar(n)] else NatToString(n / 10) + [DigitChar(n % 10)]
  }

  /** The decimal rendering of a signed value: a minus sign, then the digits. */
  function IntToString(i: int): (s: string)
    ensures |s| >= 1
    ensures i >= 0 ==> AllDigits(s)
    ensures i < 0 ==> s[0] == '-' && AllDigits(s[1..])
  {
    if i >= 0 then NatToString(i) else "-" + NatToString(-i)
  }

  /** The value of a string of decimal digits, most significant first. */
  function DigitsValue(s: string): nat
    requires AllDigits(s)
  {
    if s == [] then 0
    else DigitsValue(s[..|s| - 1]) * 10 + (s[|s| - 1] as int - '0' as int)
  }

  /** `s.parse::<u64>()`: an optional leading '+', then at least one digit and
      nothing else; a value above `u64::MAX` is an overflow error. */
  function ParseU64(s: string): (r: Option<nat>)
    ensures r.Some? ==> r.value < U64_LIMIT
    ensures s == [] ==> r.None?
    ensures r.Some? && s[0] != '+' ==> AllDigits(s) && r.value == DigitsValue(s)
    ensures r.Some? && s[0] == '+' ==> |s| >= 2 && AllDigits(s[1..]) && r.value == DigitsValue(s[1..])
    ensures var digits := if |s| >= 1 && s[0] == '+' then s[1..] else s;
      digits != [] && AllDigits(digits) && DigitsValue(digits) < U64_LIMIT ==> r == Some(DigitsValue(digits))
  {
    var digits := if |s| >= 1 && s[0] == '+' then s[1..] else s;
    if digits == [] || !AllDigits(digits) then None
    else if DigitsValue(digits) >= U64_LIMIT then None
    else Some(DigitsValue(digits))
  }

  /** Reading back the digits `NatToString` wrote gives the number. */
  lemma {:induction false} DigitsValueOfNatToString(n: nat)
    ensures DigitsValue(NatToString(n)) == n
    decreases n
  {
    var s := NatToString(n);
    if n >= 10 {
      DigitsValueOfNatToString(n / 10);
      assert s[..|s| - 1] == NatToString(n / 10);
    }
  }

  /** Parsing what `format!("{}")` printed gives the value back. */
  lemma ParseU64OfNatToString(n: nat)
    requires n < U64_LIMIT
    ensures ParseU64(NatToString(n)) == Some(n)
  {
    DigitsValueOfNatToString(n);
  }
}
