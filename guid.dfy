// Joystick GUID literals (src/input/guid.hpp): sixteen bytes written as 32
// hex digits, or as 16 hex pairs with one separator character between them.

module Guids {
  import opened Bytes
  import opened Wrappers
  import opened Strings
  import opened HexDigits

  /** SDL::GUID: its 16 bytes. */
  datatype Guid = Guid(data: seq<u8>)
  {
    predicate Valid()
    {
      |data| == 16
    }
  }

  const NotEnoughData := "not enough data to determine the literal type"
  const Unrecognized := "Unrecognized guid literal"

  /** The number of bytes in a GUID. */
  const Amount: nat := 16

  /** Where the hex pair of byte i starts when each byte takes width characters (2 or 3). */
  function Offset(i: nat, width: nat): (o: nat)
    requires width == 2 || width == 3
    ensures o == i * width
  {
    if width == 2 then 2 * i else 3 * i
  }

  /** The length of a literal whose bytes take width characters each, the last one without separator. */
  function TextLength(width: nat): nat
    requires width == 2 || width == 3
  {
    if width == 2 then Amount * 2 else Amount * 2 + (Amount - 1)
  }

  /** The hex pair of byte i reads correctly. */
  predicate PairDecodes(input: string, width: nat, i: nat)
    requires width == 2 || width == 3
    requires i < Amount && |input| == TextLength(width)
  {
    HexPair(input[Offset(i, width)], input[Offset(i, width) + 1]).Ok?
  }

  /** The value of the hex pair of byte i. */
  function PairValue(input: string, width: nat, i: nat): u8
    requires width == 2 || width == 3
    requires i < Amount && |input| == TextLength(width)
    requires PairDecodes(input, width, i)
  {
    HexPair(input[Offset(i, width)], input[Offset(i, width) + 1]).value
  }

  /** The width a length announces: 2 for 32 characters, 3 for 47, none otherwise. */
  function WidthOf(size: nat): (w: Option<nat>)
    ensures w.Some? ==> (w.value == 2 || w.value == 3) && size == TextLength(w.value)
    ensures w.Some? <==> size == 32 || size == 47
  {
    if size == Amount * 2 then Some(2)
    else if size == Amount * 2 + (Amount - 1) then Some(3)
    else None
  }

  /**
   * get_guid_from_string_impl: byte i is the hex pair at offset i * width;
   * every pair must read, and the separator characters are not looked at.
   */
  function ParseGuid(input: string): (r: Result<Guid, string>)
    ensures r.Ok? ==> r.value.Valid()
  {
    if |input| == 0 then Err(NotEnoughData)
    else match WidthOf(|input|)
      case None => Err(Unrecognized)
      case Some(width) =>
        if forall i :: 0 <= i < Amount ==> PairDecodes(input, width, i) then
          Ok(Guid(seq(Amount, i requires 0 <= i < Amount => PairValue(input, width, i))))
        else Err(HexError)
  }

  /** get_guid_from_string_impl, filling the 16-byte array pair by pair. */
  method GuidFromString(input: string) returns (r: Result<Guid, string>)
    ensures r == ParseGuid(input)
  {
    if |input| == 0 {
      return Err(NotEnoughData);
    }
    var width: nat := 2;
    if |input| == Amount * 2 {
      width := 2;
    } else if |input| == Amount * 2 + (Amount - 1) {
      width := 3;
    } else {
      return Err(Unrecognized);
    }
    assert WidthOf(|input|) == Some(width);
    var result := new u8[Amount](_ => 0);
    for i := 0 to Amount
      invariant forall j :: 0 <= j < i ==> PairDecodes(input, width, j) && result[j] == PairValue(input, width, j)
    {
      var offset := Offset(i, width);
      var value := HexPair(input[offset], input[offset + 1]);
      if value.Err? {
        assert !PairDecodes(input, width, i);
        return Err(value.error);
      }
      result[i] := value.value;
    }
    assert result[..] == seq(Amount, i requires 0 <= i < Amount => PairValue(input, width, i));
    return Ok(Guid(result[..]));
  }

  // ----- what the parser accepts -----

  /** Only the two lengths are ever accepted, whatever the characters. */
  lemma ParseGuidLength(input: string)
    ensures |input| == 0 ==> ParseGuid(input) == Err(NotEnoughData)
    ensures |input| != 0 && |input| != 32 && |input| != 47 ==> ParseGuid(input) == Err(Unrecognized)
    ensures ParseGuid(input).Ok? ==> |input| == 32 || |input| == 47
  {
  }

  /** The characters between the pairs of the long form are never read. */
  lemma SeparatorsIgnored(input: string, k: nat, c: char)
    requires |input| == 47 && k < 47 && k % 3 == 2
    ensures ParseGuid(input[k := c]) == ParseGuid(input)
  {
    var other := input[k := c];
    forall i | 0 <= i < Amount
      ensures other[Offset(i, 3)] == input[Offset(i, 3)] && other[Offset(i, 3) + 1] == input[Offset(i, 3) + 1]
    {
    }
    assert forall i :: 0 <= i < Amount ==> PairDecodes(other, 3, i) == PairDecodes(input, 3, i);
    if forall i :: 0 <= i < Amount ==> PairDecodes(input, 3, i) {
      assert seq(Amount, i requires 0 <= i < Amount => PairValue(other, 3, i))
          == seq(Amount, i requires 0 <= i < Amount => PairValue(input, 3, i));
    }
  }

  /** Capitalisation does not matter: the digits read the same in either case. */
  lemma CaseIgnored(input: string)
    ensures ParseGuid(ToLower(input)) == ParseGuid(input)
  {
    var lower := ToLower(input);
    if WidthOf(|input|).Some? {
      var width := WidthOf(|input|).value;
      forall i | 0 <= i < Amount
        ensures HexPair(lower[Offset(i, width)], lower[Offset(i, width) + 1])
             == HexPair(input[Offset(i, width)], input[Offset(i, width) + 1])
      {
        HexDigitCaseInsensitive(input[Offset(i, width)]);
        HexDigitCaseInsensitive(input[Offset(i, width) + 1]);
      }
      assert forall i :: 0 <= i < Amount ==> PairDecodes(lower, width, i) == PairDecodes(input, width, i);
      if forall i :: 0 <= i < Amount ==> PairDecodes(input, width, i) {
        assert seq(Amount, i requires 0 <= i < Amount => PairValue(lower, width, i))
            == seq(Amount, i requires 0 <= i < Amount => PairValue(input, width, i));
      }
    }
  }

  // ----- printing a GUID the way the parser reads it -----

  /** Digit k of the text: the high nibble of a byte, then its low nibble. */
  function Nibble(b: u8, low: bool): char
  {
    if low then HexChar(b % 16) else HexChar(b / 16)
  }

  /** The short form (32 hex digits) or the long form (pairs separated by sep). */
  function Format(g: Guid, sep: Option<char>): (s: string)
    requires g.Valid()
    ensures |s| == (if sep.None? then 32 else 47)
  {
    match sep
    case None => seq(32, k requires 0 <= k < 32 => Nibble(g.data[k / 2], k % 2 == 1))
    case Some(c) => seq(47, k requires 0 <= k < 47 => if k % 3 == 2 then c else Nibble(g.data[k / 3], k % 3 == 1))
  }

  /** Both printed forms, with any separator, read back as the same GUID. */
  lemma ParseFormat(g: Guid, sep: Option<char>)
    requires g.Valid()
    ensures ParseGuid(Format(g, sep)) == Ok(g)
  {
    var s := Format(g, sep);
    var width := if sep.None? then 2 else 3;
    assert WidthOf(|s|) == Some(width);
    forall i | 0 <= i < Amount
      ensures PairDecodes(s, width, i) && PairValue(s, width, i) == g.data[i]
    {
      FormatAt(g, sep, i);
      HexPairRoundTrip(g.data[i]);
    }
    assert seq(Amount, i requires 0 <= i < Amount => PairValue(s, width, i)) == g.data;
  }

  lemma FormatAt(g: Guid, sep: Option<char>, i: nat)
    requires g.Valid() && i < Amount
    ensures var s := Format(g, sep);
      var o := Offset(i, if sep.None? then 2 else 3);
      s[o] == HexChar(g.data[i] / 16) && s[o + 1] == HexChar(g.data[i] % 16)
  {
  }

  /** A GUID that reads is the one whose printed digits are the text's digits, lower-cased. */
  lemma ParsedDigits(input: string, i: nat)
    requires ParseGuid(input).Ok? && i < Amount
    ensures var g := ParseGuid(input).value;
      var o := Offset(i, WidthOf(|input|).value);
      ToLowerChar(input[o]) == HexChar(g.data[i] / 16) && ToLowerChar(input[o + 1]) == HexChar(g.data[i] % 16)
  {
    var width := WidthOf(|input|).value;
    var o := Offset(i, width);
    var b := ParseGuid(input).value.data[i];
    assert PairDecodes(input, width, i);
    assert b == HexDigit(input[o]).value * 16 + HexDigit(input[o + 1]).value;
    LowerDigit(input[o], b / 16);
    LowerDigit(input[o + 1], b % 16);
  }

  lemma LowerDigit(c: char, d: nat)
    requires IsHexDigit(c) && d < 16 && HexDigit(c).value == d
    ensures ToLowerChar(c) == HexChar(d)
  {
    var digits := "0123456789abcdef";
    assert HexChar(d) == digits[d];
  }
}
