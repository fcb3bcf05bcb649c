// The digit decoders that src/input/guid.hpp and src/helper/color_literals.hpp
// each define for themselves (single_hex_number, single_decimal_number,
// single_hex_color_value): one definition here, used by both parsers.

module HexDigits {
  import opened Bytes
  import opened Wrappers
  import opened Strings

  const HexError := "the input must be a valid hex character"
  const DecimalError := "the input must be a valid decimal character"

  predicate IsHexDigit(c: char)
  {
    '0' <= c <= '9' || 'A' <= c <= 'F' || 'a' <= c <= 'f'
  }

  /** single_hex_number: the value of a hex digit in either case. */
  function HexDigit(c: char): (r: Result<u8, string>)
    ensures r.Ok? <==> IsHexDigit(c)
    ensures r.Ok? ==> r.value < 16
    ensures r.Err? ==> r.error == HexError
  {
    if '0' <= c <= '9' then Ok(c as int - '0' as int)
    else if 'A' <= c <= 'F' then Ok(c as int - 'A' as int + 10)
    else if 'a' <= c <= 'f' then Ok(c as int - 'a' as int + 10)
    else Err(HexError)
  }

  /** single_decimal_number. */
  function DecimalDigit(c: char): (r: Result<u8, string>)
    ensures r.Ok? <==> '0' <= c <= '9'
    ensures r.Ok? ==> r.value < 10
    ensures r.Err? ==> r.error == DecimalError
  {
    if '0' <= c <= '9' then Ok(c as int - '0' as int) else Err(DecimalError)
  }

  /** single_hex_color_value: two hex digits, the first one the high nibble. */
  function HexPair(first: char, second: char): (r: Result<u8, string>)
    ensures r.Ok? <==> IsHexDigit(first) && IsHexDigit(second)
    ensures r.Err? ==> r.error == HexError
  {
    match HexDigit(first)
    case Err(e) => Err(e)
    case Ok(hi) =>
      match HexDigit(second)
      case Err(e) => Err(e)
      case Ok(lo) => Ok(hi * 16 + lo)
  }

  /** Every digit printed in lower-case hex reads back as itself. */
  lemma HexDigitOfHexChar(d: nat)
    requires d < 16
    ensures HexDigit(HexChar(d)) == Ok(d)
  {
    var digits := "0123456789abcdef";
    assert HexChar(d) == digits[d];
  }

  /** Upper and lower case spell the same digit; a non-digit stays one. */
  lemma HexDigitCaseInsensitive(c: char)
    ensures HexDigit(ToLowerChar(c)) == HexDigit(c)
  {
  }

  /** A byte printed as two lower-case hex digits reads back as itself. */
  lemma HexPairRoundTrip(b: u8)
    ensures HexPair(HexChar(b / 16), HexChar(b % 16)) == Ok(b)
  {
    HexDigitOfHexChar(b / 16);
    HexDigitOfHexChar(b % 16);
  }

  /** Every decimal digit reads back as itself. */
  lemma DecimalDigitOfDigitChar(d: nat)
    requires d < 10
    ensures DecimalDigit(DigitChar(d)) == Ok(d)
  {
    DigitCharValue(d);
  }
}
