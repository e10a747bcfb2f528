/** Text decoding used by the command interpreters: the hand-written hex
    parser of src/cmd_processor.rs, and the Rust library parsers that
    src/master.rs relies on (`u8::from_str_radix(_, 16)`, `str::parse::<u8>`,
    `core::str::from_utf8`). */
module Text {
  import opened Base

  predicate IsDecDigit(b: Byte)
  {
    48 <= b <= 57
  }

  predicate IsHexDigit(b: Byte)
  {
    IsDecDigit(b) || 97 <= b <= 102 || 65 <= b <= 70
  }

  /** The value of one hex digit, upper or lower case. */
  function DigitValue(b: Byte): (v: nat)
    requires IsHexDigit(b)
    ensures v < 16
    ensures v < 10 <==> IsDecDigit(b)
  {
    if b <= 57 then b - 48 else if b >= 97 then b - 97 + 10 else b - 65 + 10
  }

  /** The upper-case digit for a value below 16. */
  function UpperDigit(v: nat): (b: Byte)
    requires v < 16
    ensures IsHexDigit(b) && DigitValue(b) == v
  {
    if v < 10 then 48 + v else 65 + (v - 10)
  }

  /** The lower-case digit for a value below 16. */
  function LowerDigit(v: nat): (b: Byte)
    requires v < 16
    ensures IsHexDigit(b) && DigitValue(b) == v
  {
    if v < 10 then 48 + v else 97 + (v - 10)
  }

  /** ASCII lower-casing of one byte. */
  function ToLower(b: Byte): Byte
  {
    if 65 <= b <= 90 then b + 32 else b
  }

  /** `parse_hex_byte`: the first two bytes as a high and a low hex digit,
      combined as `(high << 4) | low`. */
  function ParseHexByte(input: seq<Byte>): (r: Option<Byte>)
    ensures r.None? <==> |input| < 2 || !IsHexDigit(input[0]) || !IsHexDigit(input[1])
    ensures r.Some? ==> r.value / 16 == DigitValue(input[0]) && r.value % 16 == DigitValue(input[1])
  {
    if |input| < 2 then None
    else if !IsHexDigit(input[0]) then None
    else if !IsHexDigit(input[1]) then None
    else
      // `(high << 4) | low` with `low < 16`
      Some(DigitValue(input[0]) * 16 + DigitValue(input[1]))
  }

  /** `parse_hex_byte` inverts two-digit upper-case hex encoding, whatever
      follows the two digits. */
  lemma ParseHexByteInvertsUpper(b: Byte, tail: seq<Byte>)
    ensures ParseHexByte([UpperDigit(b / 16), UpperDigit(b % 16)] + tail) == Some(b)
  {
  }

  /** ... and lower-case encoding. */
  lemma ParseHexByteInvertsLower(b: Byte, tail: seq<Byte>)
    ensures ParseHexByte([LowerDigit(b / 16), LowerDigit(b % 16)] + tail) == Some(b)
  {
  }

  /** `parse_hex_byte` does not distinguish upper from lower case. */
  lemma ParseHexByteIgnoresCase(x: Byte, y: Byte)
    ensures ParseHexByte([ToLower(x), ToLower(y)]) == ParseHexByte([x, y])
  {
  }

  /** Rust's `u8::from_str_radix(s, 16)` for a two-byte `s`: two hex digits,
      or `+` and one hex digit. A `-` or a lone `+` is an invalid digit. The
      result never overflows a `u8` because two digits are at most 0xFF. */
  function FromStrRadix16(pair: seq<Byte>): (r: Option<Byte>)
    requires |pair| == 2
    ensures r.Some? <==> IsHexDigit(pair[1]) && (IsHexDigit(pair[0]) || pair[0] == ASCII_PLUS)
  {
    if !IsHexDigit(pair[1]) then None
    else if pair[0] == ASCII_PLUS then Some(DigitValue(pair[1]))
    else if IsHexDigit(pair[0]) then Some(DigitValue(pair[0]) * 16 + DigitValue(pair[1]))
    else None
  }

  /** The library parser reads back two-digit upper-case hex. */
  lemma FromStrRadixInvertsUpper(b: Byte)
    ensures FromStrRadix16([UpperDigit(b / 16), UpperDigit(b % 16)]) == Some(b)
  {
  }

  /** On two hex digits the library parser and `parse_hex_byte` agree; the
      only pairs the library also accepts are `+` and a digit. */
  lemma FromStrRadixAgreesWithParseHexByte(pair: seq<Byte>)
    requires |pair| == 2
    ensures pair[0] != ASCII_PLUS ==> FromStrRadix16(pair) == ParseHexByte(pair)
    ensures pair[0] == ASCII_PLUS ==>
      ParseHexByte(pair).None? && (FromStrRadix16(pair).Some? <==> IsHexDigit(pair[1]))
  {
  }

  /** The value of a run of decimal digits, most significant first. */
  function DecimalValue(digits: seq<Byte>): nat
    requires forall i :: 0 <= i < |digits| ==> IsDecDigit(digits[i])
  {
    if digits == [] then 0
    else
      var last := digits[|digits| - 1];
      assert IsDecDigit(last);
      DecimalValue(digits[..|digits| - 1]) * 10 + (last - 48)
  }

  predicate AllDecDigits(s: seq<Byte>)
  {
    forall i :: 0 <= i < |s| ==> IsDecDigit(s[i])
  }

  /** `str::parse::<u8>` on a (valid UTF-8) string: an optional `+`, then
      at least one decimal digit, with a value that fits in a `u8`. */
  function ParseU8(s: seq<Byte>): (r: Option<Byte>)
    ensures r.Some? ==> |s| >= 1 && (IsDecDigit(s[0]) || s[0] == ASCII_PLUS)
    ensures r.Some? ==> forall i :: 0 <= i < |s| ==> IsDecDigit(s[i]) || (i == 0 && s[i] == ASCII_PLUS)
    ensures r.Some? ==> IsDecDigit(s[|s| - 1])
  {
    var digits := if |s| > 0 && s[0] == ASCII_PLUS then s[1..] else s;
    if digits == [] then None
    else if !AllDecDigits(digits) then None
    else if DecimalValue(digits) > 255 then None
    else Some(DecimalValue(digits))
  }

  /** The decimal rendering of a byte, without leading zeros. */
  function DecimalString(b: Byte): (s: seq<Byte>)
    ensures 1 <= |s| <= 3
    ensures forall i :: 0 <= i < |s| ==> IsDecDigit(s[i])
  {
    if b < 10 then [48 + b]
    else if b < 100 then [48 + b / 10, 48 + b % 10]
    else [48 + b / 100, 48 + b / 10 % 10, 48 + b % 10]
  }

  /** `parse::<u8>` reads back every byte's decimal rendering, also with a
      leading `+`. */
  lemma ParseU8InvertsDecimal(b: Byte)
    ensures ParseU8(DecimalString(b)) == Some(b)
    ensures ParseU8([ASCII_PLUS] + DecimalString(b)) == Some(b)
  {
    var s := DecimalString(b);
    assert ([ASCII_PLUS] + s)[1..] == s;
    assert DecimalValue(s[..0]) == 0;
    if b >= 100 {
      assert s[..2][..1] == s[..1];
      assert DecimalValue(s[..1]) == b / 100;
      assert DecimalValue(s[..2]) == b / 10;
    } else if b >= 10 {
      assert DecimalValue(s[..1]) == b / 10;
    }
    assert DecimalValue(s) == b;
  }

  /** `parse::<u8>` rejects values above 255, such as "256". */
  lemma ParseU8RejectsOverflow()
    ensures ParseU8([50, 53, 54]) == None
  {
    var s: seq<Byte> := [50, 53, 54];
    assert s[..2][..1] == s[..1] == [50];
    assert DecimalValue(s[..1][..0]) == 0;
    assert DecimalValue(s[..1]) == 2;
    assert DecimalValue(s[..2]) == 25;
    assert DecimalValue(s) == 256;
  }

  predicate IsContinuation(b: Byte)
  {
    0x80 <= b <= 0xBF
  }

  /** Well-formed UTF-8 (the byte sequences of section 4 of RFC 3629),
      which `core::str::from_utf8` accepts. */
  predicate ValidUtf8(s: seq<Byte>)
    decreases |s|
  {
    if s == [] then true
    else if s[0] < 0x80 then ValidUtf8(s[1..])
    else if 0xC2 <= s[0] <= 0xDF then
      |s| >= 2 && IsContinuation(s[1]) && ValidUtf8(s[2..])
    else if 0xE0 <= s[0] <= 0xEF then
      && |s| >= 3
      && (if s[0] == 0xE0 then 0xA0 <= s[1] <= 0xBF
          else if s[0] == 0xED then 0x80 <= s[1] <= 0x9F
          else IsContinuation(s[1]))
      && IsContinuation(s[2]) && ValidUtf8(s[3..])
    else if 0xF0 <= s[0] <= 0xF4 then
      && |s| >= 4
      && (if s[0] == 0xF0 then 0x90 <= s[1] <= 0xBF
          else if s[0] == 0xF4 then 0x80 <= s[1] <= 0x8F
          else IsContinuation(s[1]))
      && IsContinuation(s[2]) && IsContinuation(s[3]) && ValidUtf8(s[4..])
    else false
  }

  /** ASCII text is valid UTF-8; a lone continuation byte is not. */
  lemma {:induction false} AsciiIsUtf8(s: seq<Byte>)
    requires forall i :: 0 <= i < |s| ==> s[i] < 0x80
    ensures ValidUtf8(s)
    ensures !ValidUtf8([0x80] + s)
    decreases |s|
  {
    if s != [] {
      AsciiIsUtf8(s[1..]);
    }
  }
}
