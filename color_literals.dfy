// Colour literals (src/helper/color_literals.hpp): "#RRGGBB", "#RRGGBBAA",
// "rgb(r, g, b)" and "rgba(r, g, b, a)" with decimal or 0x-prefixed hex
// components. The parsers read a NUL-terminated C string: CharAt gives the
// terminator at the end of the text.

module ColorLiterals {
  import opened Bytes
  import opened Wrappers
  import opened HexDigits

  /** Color from src/helper/color.hpp: red, green, blue and alpha. */
  datatype Color = Color(r: u8, g: u8, b: u8, a: u8)

  /** The three-component constructor, fully opaque. */
  function Opaque(r: u8, g: u8, b: u8): Color
  {
    Color(r, g, b, 0xFF)
  }

  /** color::SerializeMode: which spelling a colour was read from. */
  datatype SerializeMode = Hex | RGB | HSV

  const U32Max: nat := 0xFFFF_FFFF
  const Overflow := "overflow detected"
  const EndedEarly := "input ended too early"

  /** The character at i of the C string, which ends in a NUL. */
  function CharAt(s: string, i: nat): char
    requires i <= |s|
  {
    if i < |s| then s[i] else '\0'
  }

  // ----- single_color_value_any -----

  /** The first position at or after i that is not a space. */
  function SkipSpaces(s: string, i: nat): (j: nat)
    requires i <= |s|
    ensures i <= j <= |s| && CharAt(s, j) != ' '
    ensures forall k :: i <= k < j ==> s[k] == ' '
    decreases |s| - i
  {
    if CharAt(s, i) == ' ' then SkipSpaces(s, i + 1) else i
  }

  function Base(hex: bool): nat
  {
    if hex then 16 else 10
  }

  /** max_value_before_multiplication: the largest value that can still be multiplied by the base. */
  function MaxBefore(hex: bool): nat
  {
    if hex then U32Max / 16 else U32Max / 10
  }

  /** max_value_before_multiplication_rest: the largest digit that may follow MaxBefore. */
  function MaxRest(hex: bool): nat
  {
    if hex then U32Max - (U32Max / 16) * 16 else U32Max - (U32Max / 10) * 10
  }

  /** A digit in the base in use. */
  function DigitOf(c: char, hex: bool): (r: Result<u8, string>)
    ensures r.Ok? ==> r.value < Base(hex)
    ensures r.Ok? ==> c != ' ' && c != '_' && c != ',' && c != ')' && c != '\0'
  {
    if hex then HexDigit(c) else DecimalDigit(c)
  }

  /** One more digit on the right. */
  function Step(acc: nat, d: nat, hex: bool): nat
  {
    if hex then acc * 16 + d else acc * 10 + d
  }

  /**
   * The digit loop of single_color_value_any from position i with the value
   * read so far: spaces and underscores are skipped, ',' or ')' ends the
   * number (the result is the value and that position), NUL is too early.
   */
  function Scan(s: string, i: nat, acc: u32, hex: bool): (r: Result<(u32, nat), string>)
    requires i <= |s|
    ensures r.Ok? ==> i <= r.value.1 < |s| && (s[r.value.1] == ',' || s[r.value.1] == ')')
    decreases |s| - i
  {
    var c := CharAt(s, i);
    if c == ' ' || c == '_' then Scan(s, i + 1, acc, hex)
    else if c == ',' || c == ')' then Ok((acc, i))
    else if c == '\0' then Err(EndedEarly)
    else match DigitOf(c, hex)
      case Err(e) => Err(e)
      case Ok(d) =>
        if acc == MaxBefore(hex) && d > MaxRest(hex) then Err(Overflow)
        else if acc > MaxBefore(hex) then Err(Overflow)
        else Scan(s, i + 1, Step(acc, d, hex), hex)
  }

  /** single_color_value_any on the text from pos: leading spaces, an optional "0x", then the digits. */
  function AnyValue(s: string, pos: nat): (r: Result<(u32, nat), string>)
    requires pos <= |s|
    ensures r.Ok? ==> pos <= r.value.1 < |s| && (s[r.value.1] == ',' || s[r.value.1] == ')')
  {
    var start := SkipSpaces(s, pos);
    if CharAt(s, start) == '0' && CharAt(s, start + 1) == 'x' then Scan(s, start + 2, 0, true)
    else Scan(s, start, 0, false)
  }

  /** single_color_value_any. */
  method SingleColorValueAny(s: string, pos: nat) returns (r: Result<(u32, nat), string>)
    requires pos <= |s|
    ensures r == AnyValue(s, pos)
  {
    var start := pos;
    while CharAt(s, start) == ' '
      invariant pos <= start <= |s|
      invariant SkipSpaces(s, pos) == SkipSpaces(s, start)
      decreases |s| - start
    {
      start := start + 1;
    }
    var acceptHex := false;
    if CharAt(s, start) == '0' && CharAt(s, start + 1) == 'x' {
      start := start + 2;
      acceptHex := true;
    }
    var maxBefore := MaxBefore(acceptHex);
    var maxRest := MaxRest(acceptHex);
    var result: u32 := 0;
    var i := start;
    while true
      invariant start <= i <= |s|
      invariant Scan(s, i, result, acceptHex) == AnyValue(s, pos)
      decreases |s| - i
    {
      var c := CharAt(s, i);
      if c == ' ' || c == '_' {
        i := i + 1;
      } else if c == ',' || c == ')' {
        return Ok((result, i));
      } else if c == '\0' {
        return Err(EndedEarly);
      } else {
        var digit := DigitOf(c, acceptHex);
        if digit.Err? {
          return Err(digit.error);
        }
        if result == maxBefore && digit.value > maxRest {
          return Err(Overflow);
        }
        if result > maxBefore {
          return Err(Overflow);
        }
        result := Step(result, digit.value, acceptHex);
        i := i + 1;
      }
    }
  }

  // ----- what a number field reads -----

  /** The two guards reject exactly the digits that would take the value past the u32 maximum. */
  lemma OverflowGuard(acc: nat, d: nat, hex: bool)
    requires acc <= U32Max && d < Base(hex)
    ensures ((acc == MaxBefore(hex) && d > MaxRest(hex)) || acc > MaxBefore(hex)) <==> Step(acc, d, hex) > U32Max
  {
  }

  /** The value of digits read left to right, starting from acc. */
  function Horner(acc: nat, ds: seq<nat>, hex: bool): nat
    decreases |ds|
  {
    if |ds| == 0 then acc else Horner(Step(acc, ds[0], hex), ds[1..], hex)
  }

  lemma {:induction false} HornerGrows(acc: nat, ds: seq<nat>, hex: bool)
    ensures Horner(acc, ds, hex) >= acc
    decreases |ds|
  {
    if |ds| > 0 {
      HornerGrows(Step(acc, ds[0], hex), ds[1..], hex);
    }
  }

  lemma {:induction false} HornerSnoc(acc: nat, ds: seq<nat>, d: nat, hex: bool)
    ensures Horner(acc, ds + [d], hex) == Step(Horner(acc, ds, hex), d, hex)
    decreases |ds|
  {
    if |ds| > 0 {
      assert (ds + [d])[1..] == ds[1..] + [d];
      HornerSnoc(Step(acc, ds[0], hex), ds[1..], d, hex);
    }
  }

  /** s[i..e] is a number field: digits, spaces and underscores, then ',' or ')' at e. */
  predicate Field(s: string, i: nat, e: nat, hex: bool)
  {
    i <= e < |s| && (s[e] == ',' || s[e] == ')')
    && forall k :: i <= k < e ==> s[k] == ' ' || s[k] == '_' || DigitOf(s[k], hex).Ok?
  }

  /** The digit values of a field, spaces and underscores dropped. */
  function FieldDigits(s: string, i: nat, e: nat, hex: bool): seq<nat>
    requires Field(s, i, e, hex)
    decreases e - i
  {
    if i == e then []
    else if s[i] == ' ' || s[i] == '_' then FieldDigits(s, i + 1, e, hex)
    else [DigitOf(s[i], hex).value as nat] + FieldDigits(s, i + 1, e, hex)
  }

  /**
   * A field reads as the number its digits spell when that fits in a u32,
   * and as "overflow detected" when it does not: the value never wraps.
   */
  lemma {:induction false} ScanField(s: string, i: nat, e: nat, acc: u32, hex: bool)
    requires Field(s, i, e, hex)
    ensures var v := Horner(acc, FieldDigits(s, i, e, hex), hex);
      Scan(s, i, acc, hex) == if v <= U32Max then Ok((v as u32, e)) else Err(Overflow)
    decreases e - i
  {
    if i < e && s[i] != ' ' && s[i] != '_' {
      var d := DigitOf(s[i], hex).value as nat;
      var rest := FieldDigits(s, i + 1, e, hex);
      assert FieldDigits(s, i, e, hex) == [d] + rest;
      assert ([d] + rest)[1..] == rest;
      OverflowGuard(acc, d, hex);
      if Step(acc, d, hex) > U32Max {
        HornerGrows(Step(acc, d, hex), rest, hex);
      } else {
        ScanField(s, i + 1, e, Step(acc, d, hex) as u32, hex);
      }
    } else if i < e {
      ScanField(s, i + 1, e, acc, hex);
    }
  }

  /** Whatever reads is a field ending where the scan stopped. */
  lemma {:induction false} ScanIsField(s: string, i: nat, acc: u32, hex: bool)
    requires i <= |s| && Scan(s, i, acc, hex).Ok?
    ensures Field(s, i, Scan(s, i, acc, hex).value.1, hex)
    decreases |s| - i
  {
    var c := CharAt(s, i);
    if c == ' ' || c == '_' {
      ScanIsField(s, i + 1, acc, hex);
    } else if c != ',' && c != ')' {
      var d := DigitOf(c, hex).value;
      ScanIsField(s, i + 1, Step(acc, d, hex) as u32, hex);
    }
  }

  // ----- the literal forms -----

  /** get_color_from_hex_string: exactly 7 or 9 characters, hex pairs after the '#'. */
  function ParseHex(s: string): (r: Result<Color, string>)
    ensures r.Ok? ==> |s| == 7 || |s| == 9
    ensures r.Ok? && |s| == 7 ==> r.value.a == 0xFF
  {
    if |s| == 7 then
      match HexPair(s[1], s[2])
      case Err(e) => Err(e)
      case Ok(r) =>
        match HexPair(s[3], s[4])
        case Err(e) => Err(e)
        case Ok(g) =>
          match HexPair(s[5], s[6])
          case Err(e) => Err(e)
          case Ok(b) => Ok(Opaque(r, g, b))
    else if |s| == 9 then
      match HexPair(s[1], s[2])
      case Err(e) => Err(e)
      case Ok(r) =>
        match HexPair(s[3], s[4])
        case Err(e) => Err(e)
        case Ok(g) =>
          match HexPair(s[5], s[6])
          case Err(e) => Err(e)
          case Ok(b) =>
            match HexPair(s[7], s[8])
            case Err(e) => Err(e)
            case Ok(a) => Ok(Color(r, g, b, a))
    else Err("Unrecognized HEX literal")
  }

  /**
   * One rgb component from pos: a number no larger than 255, then ','
   * (or ')' for the last one); the result is the value and the position
   * after that character.
   */
  function Component(s: string, pos: nat, name: string, last: bool): (r: Result<(u8, nat), string>)
    requires pos <= |s|
    ensures r.Ok? ==> pos < r.value.1 <= |s|
  {
    match AnyValue(s, pos)
    case Err(e) => Err(e)
    case Ok((v, next)) =>
      if v > 255 then Err(name + " has to be in range 0 - 255")
      else if !last && s[next] != ',' then Err("expected ','")
      else if last && s[next] != ')' then Err("expected ')'")
      else Ok((v, next + 1))
  }

  /** The components of rgb(...) or rgba(...) from pos, and the end of the string after the ')'. */
  function Components(s: string, pos: nat, alpha: bool): (r: Result<Color, string>)
    requires pos <= |s|
    ensures r.Ok? && !alpha ==> r.value.a == 0xFF
  {
    match Component(s, pos, "r", false)
    case Err(e) => Err(e)
    case Ok((r, p1)) =>
      match Component(s, p1, "g", false)
      case Err(e) => Err(e)
      case Ok((g, p2)) =>
        match Component(s, p2, "b", !alpha)
        case Err(e) => Err(e)
        case Ok((b, p3)) =>
          if !alpha then
            if CharAt(s, p3) != '\0' then Err("expected end of string") else Ok(Opaque(r, g, b))
          else
            match Component(s, p3, "a", true)
            case Err(e) => Err(e)
            case Ok((a, p4)) =>
              if CharAt(s, p4) != '\0' then Err("expected end of string") else Ok(Color(r, g, b, a))
  }

  /** get_color_from_rgb_string. */
  function ParseRgb(s: string): Result<Color, string>
  {
    if CharAt(s, 0) == 'r' && CharAt(s, 1) == 'g' && CharAt(s, 2) == 'b' then
      if CharAt(s, 3) == '(' then Components(s, 4, false)
      else if CharAt(s, 3) == 'a' && CharAt(s, 4) == '(' then Components(s, 5, true)
      else Err("Unrecognized RGB literal")
    else Err("Unrecognized RGB literal")
  }

  /**
   * get_color_from_string_impl: the first character picks the form. hsv
   * stands for the HSV parser and its conversion to RGB, which work on
   * floating point and are not part of this model.
   */
  function ParseColor(s: string, hsv: string -> Result<Color, string>): (r: Result<(Color, SerializeMode), string>)
    ensures |s| == 0 ==> r == Err("not enough data to determine the literal type")
    ensures |s| > 0 && s[0] != '#' && s[0] != 'r' && s[0] != 'h' ==> r == Err("Unrecognized color literal")
    ensures r.Ok? ==> (r.value.1 == Hex <==> s[0] == '#') && (r.value.1 == RGB <==> s[0] == 'r')
  {
    if |s| == 0 then Err("not enough data to determine the literal type")
    else if s[0] == '#' then
      match ParseHex(s)
      case Err(e) => Err(e)
      case Ok(c) => Ok((c, Hex))
    else if s[0] == 'r' then
      match ParseRgb(s)
      case Err(e) => Err(e)
      case Ok(c) => Ok((c, RGB))
    else if s[0] == 'h' then
      match hsv(s)
      case Err(e) => Err(e)
      case Ok(c) => Ok((c, HSV))
    else Err("Unrecognized color literal")
  }

  // ----- printed literals read back -----

  /** How a component is written: in decimal, or as 0x and two hex digits in either case. */
  datatype Spelling = Dec | LowerHex | UpperHex

  /** A hex digit in the chosen case. */
  function Digit16(d: nat, upper: bool): char
    requires d < 16
  {
    if upper then "0123456789ABCDEF"[d] else HexChar(d)
  }

  lemma HexDigitOfDigit16(d: nat, upper: bool)
    requires d < 16
    ensures HexDigit(Digit16(d, upper)) == Ok(d)
  {
    var digits := "0123456789ABCDEF";
    if upper {
      assert Digit16(d, upper) == digits[d];
    } else {
      HexDigitOfHexChar(d);
    }
  }

  /** A component value in the given spelling. */
  function Spell(n: u8, sp: Spelling): (t: string)
    ensures |t| >= 1 && t[0] != ' '
  {
    match sp
    case Dec => Decimal(n)
    case LowerHex => "0x" + [Digit16(n / 16, false), Digit16(n % 16, false)]
    case UpperHex => "0x" + [Digit16(n / 16, true), Digit16(n % 16, true)]
  }

  /** The digit values of a run of decimal digits. */
  function DigitValues(t: string): seq<nat>
    requires forall k :: 0 <= k < |t| ==> '0' <= t[k] <= '9'
  {
    seq(|t|, k requires 0 <= k < |t| => (t[k] as int - '0' as int) as nat)
  }

  lemma {:induction false} HornerDecimal(t: string)
    requires forall k :: 0 <= k < |t| ==> '0' <= t[k] <= '9'
    ensures Horner(0, DigitValues(t), false) == DecimalValue(t)
    decreases |t|
  {
    if |t| > 0 {
      var init := t[..|t| - 1];
      assert DigitValues(t) == DigitValues(init) + [(t[|t| - 1] as int - '0' as int) as nat];
      HornerDecimal(init);
      HornerSnoc(0, DigitValues(init), (t[|t| - 1] as int - '0' as int) as nat, false);
    }
  }

  /** A run of decimal digits followed by a terminator is a field of exactly those digits. */
  lemma {:induction false} DecimalFieldDigits(s: string, i: nat, e: nat)
    requires i <= e < |s| && (s[e] == ',' || s[e] == ')')
    requires forall k :: i <= k < e ==> '0' <= s[k] <= '9'
    ensures Field(s, i, e, false) && FieldDigits(s, i, e, false) == DigitValues(s[i..e])
    decreases e - i
  {
    assert Field(s, i, e, false);
    if i < e {
      DecimalFieldDigits(s, i + 1, e);
      var t := s[i..e];
      var u := s[i + 1..e];
      var d := (s[i] as int - '0' as int) as nat;
      assert FieldDigits(s, i, e, false) == [d] + FieldDigits(s, i + 1, e, false);
      assert DigitValues(t) == [d] + DigitValues(u) by {
        assert t[0] == s[i];
        assert forall k :: 1 <= k < |t| ==> t[k] == u[k - 1];
      }
    }
  }

  lemma {:induction false} SkipSpacesOver(s: string, i: nat, j: nat)
    requires i <= j <= |s| && CharAt(s, j) != ' '
    requires forall k :: i <= k < j ==> s[k] == ' '
    ensures SkipSpaces(s, i) == j
    decreases j - i
  {
    if i < j {
      SkipSpacesOver(s, i + 1, j);
    }
  }

  /** The number field of a spelled value reads as that value. */
  lemma SpelledValue(s: string, start: nat, n: u8, sp: Spelling)
    requires start + |Spell(n, sp)| < |s| && s[start..start + |Spell(n, sp)|] == Spell(n, sp)
    requires s[start + |Spell(n, sp)|] == ',' || s[start + |Spell(n, sp)|] == ')'
    ensures AnyValue(s, start) == Ok((n, start + |Spell(n, sp)|))
  {
    if sp.Dec? {
      DecimalValueAt(s, start, n);
    } else {
      HexValue(s, start, n, sp.UpperHex?);
    }
  }

  lemma HexValue(s: string, start: nat, n: u8, upper: bool)
    requires start + 4 < |s| && s[start..start + 4] == "0x" + [Digit16(n / 16, upper), Digit16(n % 16, upper)]
    requires s[start + 4] == ',' || s[start + 4] == ')'
    ensures AnyValue(s, start) == Ok((n, start + 4))
  {
    assert s[start] == '0' && s[start + 1] == 'x';
    assert s[start + 2] == Digit16(n / 16, upper) && s[start + 3] == Digit16(n % 16, upper);
    SkipSpacesOver(s, start, start);
    HexDigitOfDigit16(n / 16, upper);
    HexDigitOfDigit16(n % 16, upper);
    assert Field(s, start + 2, start + 4, true);
    assert FieldDigits(s, start + 3, start + 4, true) == [n % 16];
    assert FieldDigits(s, start + 2, start + 4, true) == [n / 16, n % 16];
    assert Horner(n / 16, [n % 16], true) == n by {
      assert [n % 16][1..] == [];
    }
    assert Horner(0, [n / 16, n % 16], true) == n by {
      assert [n / 16, n % 16][1..] == [n % 16];
    }
    ScanField(s, start + 2, start + 4, 0, true);
  }

  lemma DecimalValueAt(s: string, start: nat, n: u8)
    requires start + |Decimal(n)| < |s| && s[start..start + |Decimal(n)|] == Decimal(n)
    requires s[start + |Decimal(n)|] == ',' || s[start + |Decimal(n)|] == ')'
    ensures AnyValue(s, start) == Ok((n, start + |Decimal(n)|))
  {
    var t := Decimal(n);
    var e := start + |t|;
    assert '0' <= s[start] <= '9';
    assert s[start + 1] != 'x' by {
      if |t| > 1 {
        assert s[start + 1] == t[1];
      }
    }
    SkipSpacesOver(s, start, start);
    assert forall k :: start <= k < e ==> s[k] == t[k - start];
    DecimalFieldDigits(s, start, e);
    HornerDecimal(t);
    DecimalRoundTrip(n);
    ScanField(s, start, e, 0, false);
  }

  /** A spelled component after pre, with an optional space before it and its terminator after it. */
  lemma SpelledComponent(s: string, pre: string, lead: string, n: u8, sp: Spelling, post: string, name: string, last: bool)
    returns (next: nat)
    requires lead == "" || lead == " "
    requires s == pre + lead + Spell(n, sp) + [if last then ')' else ','] + post
    ensures next == |pre| + |lead| + |Spell(n, sp)| + 1 && Component(s, |pre|, name, last) == Ok((n, next))
  {
    var t := Spell(n, sp);
    next := |pre| + |lead| + |t| + 1;
    Pieces(s, pre, lead, t, if last then ')' else ',', post);
    SkipSpacesOver(s, |pre|, |pre| + |lead|);
    SpelledValue(s, |pre| + |lead|, n, sp);
  }

  /** Where the pieces of a concatenation sit. */
  lemma Pieces(s: string, pre: string, lead: string, t: string, term: char, post: string)
    requires s == pre + lead + t + [term] + post
    ensures var start := |pre| + |lead|;
      start + |t| < |s| && s[start..start + |t|] == t && s[start + |t|] == term
      && forall k :: |pre| <= k < start ==> s[k] == lead[k - |pre|]
  {
  }

  /** rgb(r, g, b) from the spelled components. */
  function RgbText(r: string, g: string, b: string): string
  {
    "rgb(" + r + ", " + g + ", " + b + ")"
  }

  /** rgba(r, g, b, a) from the spelled components. */
  function RgbaText(r: string, g: string, b: string, a: string): string
  {
    "rgba(" + r + ", " + g + ", " + b + ", " + a + ")"
  }

  /** rgb(r, g, b) each component in its own spelling. */
  function RgbLiteral(c: Color, sr: Spelling, sg: Spelling, sb: Spelling): string
  {
    RgbText(Spell(c.r, sr), Spell(c.g, sg), Spell(c.b, sb))
  }

  /** rgba(r, g, b, a) each component in its own spelling. */
  function RgbaLiteral(c: Color, sr: Spelling, sg: Spelling, sb: Spelling, sa: Spelling): string
  {
    RgbaText(Spell(c.r, sr), Spell(c.g, sg), Spell(c.b, sb), Spell(c.a, sa))
  }

  // The literal cut around each component, for any component texts.

  lemma RgbCuts(r: string, g: string, b: string, t: string)
    ensures RgbText(r, g, b) + t == "rgb(" + "" + r + [','] + (" " + g + ", " + b + ")" + t)
    ensures RgbText(r, g, b) + t == ("rgb(" + r + ",") + " " + g + [','] + (" " + b + ")" + t)
    ensures RgbText(r, g, b) + t == ("rgb(" + r + ", " + g + ",") + " " + b + [')'] + t
    ensures |RgbText(r, g, b) + t| > 4 && (RgbText(r, g, b) + t)[..4] == "rgb("
  {
  }

  lemma RgbaCuts(r: string, g: string, b: string, a: string, t: string)
    ensures RgbaText(r, g, b, a) + t == "rgba(" + "" + r + [','] + (" " + g + ", " + b + ", " + a + ")" + t)
    ensures RgbaText(r, g, b, a) + t == ("rgba(" + r + ",") + " " + g + [','] + (" " + b + ", " + a + ")" + t)
    ensures RgbaText(r, g, b, a) + t == ("rgba(" + r + ", " + g + ",") + " " + b + [','] + (" " + a + ")" + t)
    ensures RgbaText(r, g, b, a) + t == ("rgba(" + r + ", " + g + ", " + b + ",") + " " + a + [')'] + t
    ensures |RgbaText(r, g, b, a) + t| > 5 && (RgbaText(r, g, b, a) + t)[..5] == "rgba("
  {
  }

  /** Three components read in a row make an rgb literal if the text ends after them. */
  lemma RgbFrom(s: string, c: Color, p1: nat, p2: nat, p3: nat, hsv: string -> Result<Color, string>)
    requires |s| > 4 && s[..4] == "rgb(" && p1 <= |s| && p2 <= |s| && p3 <= |s|
    requires Component(s, 4, "r", false) == Ok((c.r, p1))
    requires Component(s, p1, "g", false) == Ok((c.g, p2))
    requires Component(s, p2, "b", true) == Ok((c.b, p3))
    ensures ParseColor(s, hsv) == if CharAt(s, p3) == '\0' then Ok((Opaque(c.r, c.g, c.b), RGB)) else Err("expected end of string")
  {
    assert s[0] == 'r' && s[1] == 'g' && s[2] == 'b' && s[3] == '(';
  }

  /** Four components read in a row make an rgba literal if the text ends after them. */
  lemma RgbaFrom(s: string, c: Color, p1: nat, p2: nat, p3: nat, p4: nat, hsv: string -> Result<Color, string>)
    requires |s| > 5 && s[..5] == "rgba(" && p1 <= |s| && p2 <= |s| && p3 <= |s| && p4 <= |s|
    requires Component(s, 5, "r", false) == Ok((c.r, p1))
    requires Component(s, p1, "g", false) == Ok((c.g, p2))
    requires Component(s, p2, "b", false) == Ok((c.b, p3))
    requires Component(s, p3, "a", true) == Ok((c.a, p4))
    ensures ParseColor(s, hsv) == if CharAt(s, p4) == '\0' then Ok((c, RGB)) else Err("expected end of string")
  {
    assert s[0] == 'r' && s[1] == 'g' && s[2] == 'b' && s[3] == 'a' && s[4] == '(';
  }

  /** The rgb literal followed by t reads as the opaque colour when t is empty or starts with NUL, and is rejected otherwise. */
  lemma RgbThen(c: Color, sr: Spelling, sg: Spelling, sb: Spelling, t: string, hsv: string -> Result<Color, string>)
    ensures ParseColor(RgbLiteral(c, sr, sg, sb) + t, hsv)
         == if |t| == 0 || t[0] == '\0' then Ok((Opaque(c.r, c.g, c.b), RGB)) else Err("expected end of string")
  {
    var r, g, b := Spell(c.r, sr), Spell(c.g, sg), Spell(c.b, sb);
    var s := RgbText(r, g, b) + t;
    RgbCuts(r, g, b, t);
    var p1 := SpelledComponent(s, "rgb(", "", c.r, sr, " " + g + ", " + b + ")" + t, "r", false);
    var pre2 := "rgb(" + r + ",";
    assert |pre2| == p1;
    var p2 := SpelledComponent(s, pre2, " ", c.g, sg, " " + b + ")" + t, "g", false);
    var pre3 := "rgb(" + r + ", " + g + ",";
    assert |pre3| == p2;
    var p3 := SpelledComponent(s, pre3, " ", c.b, sb, t, "b", true);
    assert p3 == |s| - |t| && CharAt(s, p3) == if |t| == 0 then '\0' else t[0];
    RgbFrom(s, c, p1, p2, p3, hsv);
  }

  /** The rgba literal followed by t reads as the colour when t is empty or starts with NUL, and is rejected otherwise. */
  lemma RgbaThen(c: Color, sr: Spelling, sg: Spelling, sb: Spelling, sa: Spelling, t: string, hsv: string -> Result<Color, string>)
    ensures ParseColor(RgbaLiteral(c, sr, sg, sb, sa) + t, hsv)
         == if |t| == 0 || t[0] == '\0' then Ok((c, RGB)) else Err("expected end of string")
  {
    var r, g, b, a := Spell(c.r, sr), Spell(c.g, sg), Spell(c.b, sb), Spell(c.a, sa);
    var s := RgbaText(r, g, b, a) + t;
    RgbaCuts(r, g, b, a, t);
    var p1 := SpelledComponent(s, "rgba(", "", c.r, sr, " " + g + ", " + b + ", " + a + ")" + t, "r", false);
    var pre2 := "rgba(" + r + ",";
    assert |pre2| == p1;
    var p2 := SpelledComponent(s, pre2, " ", c.g, sg, " " + b + ", " + a + ")" + t, "g", false);
    var pre3 := "rgba(" + r + ", " + g + ",";
    assert |pre3| == p2;
    var p3 := SpelledComponent(s, pre3, " ", c.b, sb, " " + a + ")" + t, "b", false);
    var pre4 := "rgba(" + r + ", " + g + ", " + b + ",";
    assert |pre4| == p3;
    var p4 := SpelledComponent(s, pre4, " ", c.a, sa, t, "a", true);
    assert p4 == |s| - |t| && CharAt(s, p4) == if |t| == 0 then '\0' else t[0];
    RgbaFrom(s, c, p1, p2, p3, p4, hsv);
  }

  /** The rgb form reads back as the opaque colour, whatever the spellings. */
  lemma RgbRoundTrip(c: Color, sr: Spelling, sg: Spelling, sb: Spelling, hsv: string -> Result<Color, string>)
    ensures ParseColor(RgbLiteral(c, sr, sg, sb), hsv) == Ok((Opaque(c.r, c.g, c.b), RGB))
  {
    RgbThen(c, sr, sg, sb, "", hsv);
    assert RgbLiteral(c, sr, sg, sb) + "" == RgbLiteral(c, sr, sg, sb);
  }

  /** The rgba form reads back as the colour with its alpha, whatever the spellings. */
  lemma RgbaRoundTrip(c: Color, sr: Spelling, sg: Spelling, sb: Spelling, sa: Spelling, hsv: string -> Result<Color, string>)
    ensures ParseColor(RgbaLiteral(c, sr, sg, sb, sa), hsv) == Ok((c, RGB))
  {
    RgbaThen(c, sr, sg, sb, sa, "", hsv);
    assert RgbaLiteral(c, sr, sg, sb, sa) + "" == RgbaLiteral(c, sr, sg, sb, sa);
  }

  /** A byte as two hex digits in the chosen case. */
  function HexByte(n: u8, upper: bool): string
  {
    [Digit16(n / 16, upper), Digit16(n % 16, upper)]
  }

  /** #RRGGBBAA, or #RRGGBB when the alpha is left out. */
  function HexLiteral(c: Color, alpha: bool, upper: bool): string
  {
    "#" + HexByte(c.r, upper) + HexByte(c.g, upper) + HexByte(c.b, upper) + (if alpha then HexByte(c.a, upper) else "")
  }

  lemma HexByteReads(n: u8, upper: bool)
    ensures HexPair(Digit16(n / 16, upper), Digit16(n % 16, upper)) == Ok(n)
  {
    HexDigitOfDigit16(n / 16, upper);
    HexDigitOfDigit16(n % 16, upper);
  }

  /** The hex form reads back in either case: with its alpha, or opaque without one. */
  lemma HexRoundTrip(c: Color, alpha: bool, upper: bool, hsv: string -> Result<Color, string>)
    ensures ParseColor(HexLiteral(c, alpha, upper), hsv) == Ok((if alpha then c else Opaque(c.r, c.g, c.b), Hex))
  {
    var s := HexLiteral(c, alpha, upper);
    assert |s| == if alpha then 9 else 7;
    assert s[0] == '#';
    assert s[1] == Digit16(c.r / 16, upper) && s[2] == Digit16(c.r % 16, upper);
    assert s[3] == Digit16(c.g / 16, upper) && s[4] == Digit16(c.g % 16, upper);
    assert s[5] == Digit16(c.b / 16, upper) && s[6] == Digit16(c.b % 16, upper);
    HexByteReads(c.r, upper);
    HexByteReads(c.g, upper);
    HexByteReads(c.b, upper);
    if alpha {
      assert s[7] == Digit16(c.a / 16, upper) && s[8] == Digit16(c.a % 16, upper);
      HexByteReads(c.a, upper);
    }
  }

  // The compile-time sanity checks at the end of color_literals.hpp that do not involve HSV.

  lemma HexAlphaDefault(hsv: string -> Result<Color, string>)
    ensures ParseColor("#ABCDEF", hsv) == ParseColor("#ABCDEFFF", hsv) == Ok((Color(0xAB, 0xCD, 0xEF, 0xFF), Hex))
  {
    var c := Color(0xAB, 0xCD, 0xEF, 0xFF);
    assert HexLiteral(c, false, true) == "#ABCDEF";
    assert HexLiteral(c, true, true) == "#ABCDEFFF";
    HexRoundTrip(c, false, true, hsv);
    HexRoundTrip(c, true, true, hsv);
  }

  lemma RgbAlphaDefault(hsv: string -> Result<Color, string>)
    ensures ParseColor("rgb(0, 0, 0)", hsv) == ParseColor("rgba(0, 0, 0, 0xFF)", hsv) == Ok((Color(0, 0, 0, 0xFF), RGB))
  {
    var black := Color(0, 0, 0, 0xFF);
    assert Spell(0, Dec) == "0";
    assert Spell(0xFF, UpperHex) == "0xFF";
    assert RgbLiteral(black, Dec, Dec, Dec) == "rgb(0, 0, 0)";
    assert RgbaLiteral(black, Dec, Dec, Dec, UpperHex) == "rgba(0, 0, 0, 0xFF)";
    RgbRoundTrip(black, Dec, Dec, Dec, hsv);
    RgbaRoundTrip(black, Dec, Dec, Dec, UpperHex, hsv);
  }

  lemma HexComponents(hsv: string -> Result<Color, string>)
    ensures ParseColor("rgb(0xAB, 0xCD, 0xEF)", hsv) == ParseColor("rgb(171, 205, 239)", hsv) == Ok((Color(171, 205, 239, 0xFF), RGB))
  {
    UpperHexLiteral(hsv);
    DecimalLiteral(hsv);
  }

  lemma UpperHexLiteral(hsv: string -> Result<Color, string>)
    ensures ParseColor("rgb(0xAB, 0xCD, 0xEF)", hsv) == Ok((Color(171, 205, 239, 0xFF), RGB))
  {
    var d := Color(171, 205, 239, 0xFF);
    assert Spell(171, UpperHex) == "0xAB" && Spell(205, UpperHex) == "0xCD" && Spell(239, UpperHex) == "0xEF";
    assert RgbLiteral(d, UpperHex, UpperHex, UpperHex) == "rgb(0xAB, 0xCD, 0xEF)";
    RgbRoundTrip(d, UpperHex, UpperHex, UpperHex, hsv);
  }

  lemma DecimalLiteral(hsv: string -> Result<Color, string>)
    ensures ParseColor("rgb(171, 205, 239)", hsv) == Ok((Color(171, 205, 239, 0xFF), RGB))
  {
    var d := Color(171, 205, 239, 0xFF);
    DecimalText();
    RgbRoundTrip(d, Dec, Dec, Dec, hsv);
  }

  lemma DecimalText()
    ensures RgbLiteral(Color(171, 205, 239, 0xFF), Dec, Dec, Dec) == "rgb(171, 205, 239)"
  {
    DecimalDigits();
    assert RgbText("171", "205", "239") == "rgb(171, 205, 239)";
  }

  lemma DecimalDigits()
    ensures Decimal(171) == "171" && Decimal(205) == "205" && Decimal(239) == "239"
  {
    assert Decimal(17) == "17" && Decimal(20) == "20" && Decimal(23) == "23";
  }

  // Rejected literals from the colour tests (tests/core/color.cpp).

  /** A hex literal of any length but 7 or 9 is rejected before a digit is read. */
  lemma HexLengthRejected(s: string, hsv: string -> Result<Color, string>)
    requires |s| > 0 && s[0] == '#' && |s| != 7 && |s| != 9
    ensures ParseColor(s, hsv) == Err("Unrecognized HEX literal")
  {
  }

  lemma EndedEarlyRejected(hsv: string -> Result<Color, string>)
    ensures ParseColor("rgba(0", hsv) == Err(EndedEarly)
  {
  }
}
