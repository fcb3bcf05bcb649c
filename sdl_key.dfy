// Keyboard keys with modifiers (src/manager/sdl_key.cpp): the SDL modifier
// bit-masks, the "Ctrl+Shift+A" parser, the modifier predicates and key
// equality.

module SdlKeys {
  import opened Wrappers
  import opened Strings

  /** sdl::Modifier: sided modifiers, lock-like ("special") ones, and the four either-side groups. */
  datatype Modifier =
    | LShift | RShift | LCtrl | RCtrl | LAlt | RAlt | LGui | RGui
    | Num | Caps | Mode | Scroll
    | Ctrl | Shift | Alt | Gui

  /** An SDL key code; the values come from SDL and are opaque here. */
  type KeyCode = int

  /** A bit position of the 16-bit SDL_Keymod. */
  type Bit = i: nat | i < 16

  /**
   * An SDL_Keymod value, as the set of its bits that are 1: bitwise OR is
   * union, bitwise AND is intersection, and a mask is 0 when it is empty.
   */
  type Mask = set<Bit>

  /** sdl::Key: a key code and the modifier bits held with it. */
  datatype Key = Key(keycode: KeyCode, modifiers: Mask)

  /**
   * to_sdl_modifier: the SDL2 KMOD_* mask of a modifier (KMOD_LSHIFT is
   * 0x0001, bit 0, up to KMOD_SCROLL, 0x8000, bit 15; KMOD_CTRL is
   * KMOD_LCTRL | KMOD_RCTRL and so on).
   */
  function Flag(m: Modifier): (f: Mask)
    ensures f != {}
  {
    match m
    case LShift => {0}
    case RShift => {1}
    case LCtrl => {6}
    case RCtrl => {7}
    case LAlt => {8}
    case RAlt => {9}
    case LGui => {10}
    case RGui => {11}
    case Num => {12}
    case Caps => {13}
    case Mode => {14}
    case Scroll => {15}
    case Ctrl => {6, 7}
    case Shift => {0, 1}
    case Alt => {8, 9}
    case Gui => {10, 11}
  }

  /** The eight modifiers that name one side of the keyboard. */
  predicate IsSided(m: Modifier)
  {
    m.LShift? || m.RShift? || m.LCtrl? || m.RCtrl? || m.LAlt? || m.RAlt? || m.LGui? || m.RGui?
  }

  /** The four modifiers that stand for either side. */
  predicate IsGroup(m: Modifier)
  {
    m.Ctrl? || m.Shift? || m.Alt? || m.Gui?
  }

  /** The modifier on the other side of the keyboard. */
  function Opposite(m: Modifier): (o: Modifier)
    requires IsSided(m)
    ensures IsSided(o) && o != m
    ensures Flag(o) * Flag(m) == {}
  {
    match m
    case LShift => RShift
    case RShift => LShift
    case LCtrl => RCtrl
    case RCtrl => LCtrl
    case LAlt => RAlt
    case RAlt => LAlt
    case LGui => RGui
    case RGui => LGui
  }

  /** The left and right modifiers a group stands for. */
  function Sides(g: Modifier): (r: (Modifier, Modifier))
    requires IsGroup(g)
    ensures IsSided(r.0) && IsSided(r.1) && Opposite(r.0) == r.1
    ensures Flag(g) == Flag(r.0) + Flag(r.1)
  {
    match g
    case Ctrl => (LCtrl, RCtrl)
    case Shift => (LShift, RShift)
    case Alt => (LAlt, RAlt)
    case Gui => (LGui, RGui)
  }

  /** modifier_to_string. */
  function ModifierName(m: Modifier): string
  {
    match m
    case LShift => "Shift-L"
    case RShift => "Shift-R"
    case LCtrl => "Ctrl-L"
    case RCtrl => "Ctrl-R"
    case LAlt => "Alt-L"
    case RAlt => "Alt-R"
    case LGui => "Gui-L"
    case RGui => "Gui-R"
    case Num => "Num"
    case Caps => "Caps"
    case Mode => "Mode"
    case Scroll => "Scroll"
    case Ctrl => "Ctrl"
    case Shift => "Shift"
    case Alt => "Alt"
    case Gui => "Gui"
  }

  /** The lower-case lookup table of modifier_from_string. */
  const LowerNames: map<string, Modifier> := map[
    "shift-l" := LShift, "shift-r" := RShift,
    "ctrl-l" := LCtrl, "ctrl-r" := RCtrl,
    "alt-l" := LAlt, "alt-r" := RAlt,
    "gui-l" := LGui, "gui-r" := RGui,
    "num" := Num, "caps" := Caps, "mode" := Mode, "scroll" := Scroll,
    "ctrl" := Ctrl, "shift" := Shift, "alt" := Alt, "gui" := Gui]

  /** modifier_from_string: the modifier a name spells in any capitalisation; none for the empty string. */
  function ModifierFromString(s: string): (r: Option<Modifier>)
    ensures |s| == 0 ==> r.None?
  {
    if |s| == 0 then None
    else
      var lower := ToLower(s);
      if lower in LowerNames then Some(LowerNames[lower]) else None
  }

  /** The lower-case spelling of each name, as the table holds it. */
  function LowerName(m: Modifier): string
  {
    match m
    case LShift => "shift-l"
    case RShift => "shift-r"
    case LCtrl => "ctrl-l"
    case RCtrl => "ctrl-r"
    case LAlt => "alt-l"
    case RAlt => "alt-r"
    case LGui => "gui-l"
    case RGui => "gui-r"
    case Num => "num"
    case Caps => "caps"
    case Mode => "mode"
    case Scroll => "scroll"
    case Ctrl => "ctrl"
    case Shift => "shift"
    case Alt => "alt"
    case Gui => "gui"
  }

  /** The table maps each lower-case name to its modifier, and holds nothing else. */
  lemma LowerNamesTable(m: Modifier, key: string)
    ensures LowerName(m) in LowerNames && LowerNames[LowerName(m)] == m
    ensures key in LowerNames ==> key == LowerName(LowerNames[key])
  {
  }

  /** The lower-case names are modifier_to_string's names, lower-cased. */
  lemma LowerNameOfName(m: Modifier)
    ensures ToLower(ModifierName(m)) == LowerName(m)
  {
    LowerOf(ModifierName(m), LowerName(m));
  }

  lemma LowerOf(s: string, t: string)
    requires |s| == |t| && forall k :: 0 <= k < |s| ==> ToLowerChar(s[k]) == t[k]
    ensures ToLower(s) == t
  {
  }

  /** A string names a modifier exactly when it is that modifier's name in some capitalisation. */
  lemma ModifierFromStringIff(s: string, m: Modifier)
    ensures ModifierFromString(s) == Some(m) <==> ToLower(s) == ToLower(ModifierName(m))
  {
    LowerNameOfName(m);
    LowerNamesTable(m, ToLower(s));
  }

  /** Every modifier's own name parses back to it. */
  lemma ModifierNameRoundTrip(m: Modifier)
    ensures ModifierFromString(ModifierName(m)) == Some(m)
  {
    ModifierFromStringIff(ModifierName(m), m);
  }

  /** Parsing a modifier does not depend on capitalisation. */
  lemma ModifierFromStringCaseInsensitive(s: string)
    ensures ModifierFromString(s) == ModifierFromString(ToLower(s))
  {
    ToLowerIdempotent(s);
  }

  // ----- masks -----

  /** The bitwise OR of the modifiers' flags. */
  function MaskOf(mods: seq<Modifier>): Mask
  {
    if |mods| == 0 then {} else MaskOf(mods[..|mods| - 1]) + Flag(mods[|mods| - 1])
  }

  /** sdl_modifier_from_modifiers. */
  method SdlModifierFromModifiers(mods: seq<Modifier>) returns (result: Mask)
    ensures result == MaskOf(mods)
  {
    result := {};
    for i := 0 to |mods|
      invariant result == MaskOf(mods[..i])
    {
      assert mods[..i + 1][..i] == mods[..i];
      result := result + Flag(mods[i]);
    }
    assert mods[..|mods|] == mods;
  }

  /** The Key constructor that takes a list of modifiers. */
  function KeyOf(keycode: KeyCode, mods: seq<Modifier>): Key
  {
    Key(keycode, MaskOf(mods))
  }

  /** has_modifier: the logical check, so that ALT matches a key held with LALT. */
  predicate HasModifier(k: Key, m: Modifier)
  {
    k.modifiers * Flag(m) != {}
  }

  /** has_modifier_exact: all of the modifier's bits, and for a sided one not the other side's. */
  predicate HasModifierExact(k: Key, m: Modifier)
  {
    if IsSided(m) then k.modifiers * Flag(m) == Flag(m) && k.modifiers * Flag(Opposite(m)) == {}
    else k.modifiers * Flag(m) == Flag(m)
  }

  /** A key built from a list has a modifier exactly when one of the listed modifiers shares a bit with it. */
  lemma {:induction false} KeyOfHasModifier(keycode: KeyCode, mods: seq<Modifier>, x: Modifier)
    ensures HasModifier(KeyOf(keycode, mods), x) <==> exists i :: 0 <= i < |mods| && Flag(mods[i]) * Flag(x) != {}
  {
    MaskOfIntersects(mods, Flag(x));
  }

  lemma {:induction false} MaskOfIntersects(mods: seq<Modifier>, f: Mask)
    ensures MaskOf(mods) * f != {} <==> exists i :: 0 <= i < |mods| && Flag(mods[i]) * f != {}
  {
    if |mods| > 0 {
      var init := mods[..|mods| - 1];
      var last := mods[|mods| - 1];
      MaskOfIntersects(init, f);
      OrIntersects(MaskOf(init), Flag(last), f);
      if Flag(last) * f != {} {
        assert Flag(mods[|mods| - 1]) * f != {};
      }
      if exists i :: 0 <= i < |init| && Flag(init[i]) * f != {} {
        var i :| 0 <= i < |init| && Flag(init[i]) * f != {};
        assert mods[i] == init[i];
      }
      if exists i :: 0 <= i < |mods| && Flag(mods[i]) * f != {} {
        var i :| 0 <= i < |mods| && Flag(mods[i]) * f != {};
        if i < |init| {
          assert init[i] == mods[i];
        }
      }
    }
  }

  lemma OrIntersects(a: Mask, b: Mask, f: Mask)
    ensures (a + b) * f != {} <==> (a * f != {} || b * f != {})
  {
  }

  /** A key listing a modifier has it, logically and, for a single sided modifier, exactly. */
  lemma KeyOfSingle(keycode: KeyCode, m: Modifier)
    ensures HasModifier(KeyOf(keycode, [m]), m) && HasModifierExact(KeyOf(keycode, [m]), m)
  {
    assert [m][..0] == [];
    assert MaskOf([m]) == Flag(m);
  }

  /** The exact check is the stronger one. */
  lemma ExactImpliesHas(k: Key, m: Modifier)
    ensures HasModifierExact(k, m) ==> HasModifier(k, m)
  {
  }

  /** For a sided modifier the exact check is "this side and not the other one". */
  lemma ExactSided(k: Key, m: Modifier)
    requires IsSided(m)
    ensures HasModifierExact(k, m) <==> HasModifier(k, m) && !HasModifier(k, Opposite(m))
  {
    SingleBit(k.modifiers, SideBit(m));
    SingleBit(k.modifiers, SideBit(Opposite(m)));
  }

  /** The one bit a sided modifier stands for. */
  function SideBit(m: Modifier): (b: Bit)
    requires IsSided(m)
    ensures Flag(m) == {b}
  {
    match m
    case LShift => 0
    case RShift => 1
    case LCtrl => 6
    case RCtrl => 7
    case LAlt => 8
    case RAlt => 9
    case LGui => 10
    case RGui => 11
  }

  lemma SingleBit(x: Mask, b: Bit)
    ensures x * {b} == {b} <==> x * {b} != {}
  {
  }

  /** At most one side of a pair holds exactly. */
  lemma ExactSidesExclusive(k: Key, m: Modifier)
    requires IsSided(m)
    ensures !(HasModifierExact(k, m) && HasModifierExact(k, Opposite(m)))
  {
  }

  /** A group is held logically when either of its sides is. */
  lemma GroupHas(k: Key, g: Modifier)
    requires IsGroup(g)
    ensures HasModifier(k, g) <==> HasModifier(k, Sides(g).0) || HasModifier(k, Sides(g).1)
  {
    OrIntersects(Flag(Sides(g).0), Flag(Sides(g).1), k.modifiers);
  }

  /** A group is held exactly when both of its sides are. */
  lemma GroupExact(k: Key, g: Modifier)
    requires IsGroup(g)
    ensures HasModifierExact(k, g) <==> HasModifier(k, Sides(g).0) && HasModifier(k, Sides(g).1)
  {
    var (l, r) := Sides(g);
    SingleBit(k.modifiers, SideBit(l));
    SingleBit(k.modifiers, SideBit(r));
    BothBits(k.modifiers, Flag(l), Flag(r));
  }

  lemma BothBits(x: Mask, a: Mask, b: Mask)
    ensures x * (a + b) == a + b <==> x * a == a && x * b == b
  {
  }

  // ----- equality -----

  /** The bits of the special (lock-like) modifiers agree. */
  predicate SpecialsAgree(a: Key, b: Key)
  {
    a.modifiers * Flag(Num) == b.modifiers * Flag(Num)
    && a.modifiers * Flag(Caps) == b.modifiers * Flag(Caps)
    && a.modifiers * Flag(Mode) == b.modifiers * Flag(Mode)
    && a.modifiers * Flag(Scroll) == b.modifiers * Flag(Scroll)
  }

  /** The loop of is_equal as written: one group's bits of the two masks, ANDed together, must not be zero. */
  predicate SharesGroup(a: Key, b: Key, g: Modifier)
  {
    (b.modifiers * Flag(g)) * (a.modifiers * Flag(g)) != {}
  }

  /** is_equal as written. */
  predicate IsEqualAsWritten(a: Key, b: Key, ignoreSpecial: bool)
  {
    a.keycode == b.keycode
    && (a.modifiers == b.modifiers
        || (SharesGroup(a, b, Ctrl) && SharesGroup(a, b, Shift) && SharesGroup(a, b, Alt) && SharesGroup(a, b, Gui)
            && (ignoreSpecial || SpecialsAgree(a, b))))
  }

  /** Two keys with different masks are equal as written only when both hold all four groups. */
  lemma AsWrittenNeedsEveryGroup(a: Key, b: Key, ignoreSpecial: bool)
    requires IsEqualAsWritten(a, b, ignoreSpecial) && a.modifiers != b.modifiers
    ensures HasModifier(a, Ctrl) && HasModifier(a, Shift) && HasModifier(a, Alt) && HasModifier(a, Gui)
    ensures HasModifier(b, Ctrl) && HasModifier(b, Shift) && HasModifier(b, Alt) && HasModifier(b, Gui)
  {
  }

  /** Ctrl-L against Ctrl is unequal as written, and so is a key with Num lock against the bare key. */
  lemma AsWrittenCounterexample(keycode: KeyCode)
    ensures !IsEqualAsWritten(Key(keycode, Flag(LCtrl)), Key(keycode, Flag(Ctrl)), true)
    ensures !IsEqualAsWritten(Key(keycode, Flag(Num)), Key(keycode, {}), true)
    ensures IsEqual(Key(keycode, Flag(LCtrl)), Key(keycode, Flag(Ctrl)), true)
    ensures IsEqual(Key(keycode, Flag(Num)), Key(keycode, {}), true)
  {
  }

  /** Each of the four groups is held by both keys or by neither. */
  predicate GroupsAgree(a: Key, b: Key)
  {
    HasModifier(a, Ctrl) == HasModifier(b, Ctrl)
    && HasModifier(a, Shift) == HasModifier(b, Shift)
    && HasModifier(a, Alt) == HasModifier(b, Alt)
    && HasModifier(a, Gui) == HasModifier(b, Gui)
  }

  /**
   * is_equal as intended: the same key, the same groups held in the logical
   * sense (either side counts), and unless ignored the same special bits.
   */
  predicate IsEqual(a: Key, b: Key, ignoreSpecial: bool)
  {
    a.keycode == b.keycode
    && (a.modifiers == b.modifiers || (GroupsAgree(a, b) && (ignoreSpecial || SpecialsAgree(a, b))))
  }

  /**
   * Key::operator== as intended: the corrected equality ignoring the special
   * modifiers. The C++ computes IsEqualAsWritten(a, b, true) instead.
   */
  predicate KeyEquals(a: Key, b: Key)
  {
    IsEqual(a, b, true)
  }

  /** The fast path of the intended is_equal changes nothing: equality is the agreement of key, groups and (unless ignored) specials. */
  lemma IsEqualIff(a: Key, b: Key, ignoreSpecial: bool)
    ensures IsEqual(a, b, ignoreSpecial) <==>
      a.keycode == b.keycode && GroupsAgree(a, b) && (ignoreSpecial || SpecialsAgree(a, b))
  {
  }

  /** The intended key equality is an equivalence relation. */
  lemma IsEqualEquivalence(a: Key, b: Key, c: Key, ignoreSpecial: bool)
    ensures IsEqual(a, a, ignoreSpecial)
    ensures IsEqual(a, b, ignoreSpecial) ==> IsEqual(b, a, ignoreSpecial)
    ensures IsEqual(a, b, ignoreSpecial) && IsEqual(b, c, ignoreSpecial) ==> IsEqual(a, c, ignoreSpecial)
  {
    IsEqualIff(a, b, ignoreSpecial);
    IsEqualIff(b, c, ignoreSpecial);
    IsEqualIff(a, c, ignoreSpecial);
  }

  /** Under the intended equality, comparing the special modifiers too can only make fewer keys equal. */
  lemma StrictImpliesLoose(a: Key, b: Key)
    ensures IsEqual(a, b, false) ==> IsEqual(a, b, true)
  {
  }

  /** Either side of a group, or both, matches the group under the intended operator==. */
  lemma SidesMatchGroup(keycode: KeyCode, g: Modifier)
    requires IsGroup(g)
    ensures KeyEquals(KeyOf(keycode, [Sides(g).0]), KeyOf(keycode, [g]))
    ensures KeyEquals(KeyOf(keycode, [Sides(g).1]), KeyOf(keycode, [g]))
    ensures KeyEquals(KeyOf(keycode, [Sides(g).0, Sides(g).1]), KeyOf(keycode, [g]))
  {
    assert [Sides(g).0][..0] == [] && [g][..0] == [];
    var both := [Sides(g).0, Sides(g).1];
    assert both[..1] == [Sides(g).0];
    assert MaskOf(both) == MaskOf([Sides(g).0]) + Flag(Sides(g).1);
  }

  /** Keys with different key codes are never equal. */
  lemma DifferentKeysDiffer(a: Key, b: Key, ignoreSpecial: bool)
    requires a.keycode != b.keycode
    ensures !IsEqual(a, b, ignoreSpecial) && !IsEqualAsWritten(a, b, ignoreSpecial)
  {
  }

  // ----- the parser -----

  /** The modifiers the tokens name, in order. */
  function ModsOf(tokens: seq<string>): (r: seq<Modifier>)
    requires forall k :: 0 <= k < |tokens| ==> ModifierFromString(tokens[k]).Some?
    ensures |r| == |tokens| && forall k :: 0 <= k < |tokens| ==> ModifierFromString(tokens[k]) == Some(r[k])
  {
    if |tokens| == 0 then [] else [ModifierFromString(tokens[0]).value] + ModsOf(tokens[1..])
  }

  /** The first modifier that occurs in seen or earlier in the list, scanning from the front. */
  function FirstDuplicate(mods: seq<Modifier>, seen: set<Modifier>): Option<Modifier>
  {
    if |mods| == 0 then None
    else if mods[0] in seen then Some(mods[0])
    else FirstDuplicate(mods[1..], seen + {mods[0]})
  }

  predicate Distinct(mods: seq<Modifier>)
  {
    forall i, j :: 0 <= i < j < |mods| ==> mods[i] != mods[j]
  }

  /** No duplicate is found exactly when the list repeats nothing and avoids seen; a found one occurs twice. */
  lemma {:induction false} FirstDuplicateIff(mods: seq<Modifier>, seen: set<Modifier>)
    ensures FirstDuplicate(mods, seen).None? <==> Distinct(mods) && forall i :: 0 <= i < |mods| ==> mods[i] !in seen
    ensures FirstDuplicate(mods, seen).Some? ==>
      exists j :: 0 <= j < |mods| && mods[j] == FirstDuplicate(mods, seen).value
              && (mods[j] in seen || exists i :: 0 <= i < j && mods[i] == mods[j])
  {
    if |mods| > 0 && mods[0] !in seen {
      var tail := mods[1..];
      FirstDuplicateIff(tail, seen + {mods[0]});
      assert forall i :: 0 <= i < |tail| ==> tail[i] == mods[i + 1];
      if FirstDuplicate(tail, seen + {mods[0]}).Some? {
        var j :| 0 <= j < |tail| && tail[j] == FirstDuplicate(tail, seen + {mods[0]}).value
                && (tail[j] in seen + {mods[0]} || exists i :: 0 <= i < j && tail[i] == tail[j]);
        assert mods[j + 1] == tail[j];
        if tail[j] !in seen + {mods[0]} {
          var i :| 0 <= i < j && tail[i] == tail[j];
          assert mods[i + 1] == mods[j + 1];
        }
      }
    }
  }

  /** The duplicate search of from_string, with its set of values already seen. */
  method FindDuplicate(mods: seq<Modifier>) returns (r: Option<Modifier>)
    ensures r == FirstDuplicate(mods, {})
  {
    var values: set<Modifier> := {};
    var i := 0;
    while i < |mods|
      invariant 0 <= i <= |mods|
      invariant FirstDuplicate(mods, {}) == FirstDuplicate(mods[i..], values)
    {
      if mods[i] in values {
        return Some(mods[i]);
      }
      assert mods[i..][1..] == mods[i + 1..];
      values := values + {mods[i]};
      i := i + 1;
    }
    return None;
  }

  /** The tokens of from_string: the pieces between the '+' signs, trimmed. */
  function Tokens(value: string): (r: seq<string>)
    ensures |r| == |Split(value, '+')| >= 1
  {
    var pieces := Split(value, '+');
    seq(|pieces|, k requires 0 <= k < |pieces| => Trim(pieces[k]))
  }

  /** The error for a modifier named twice. */
  function DuplicateMessage(m: Modifier): string
  {
    "Duplicate modifier: '" + ModifierName(m) + "'"
  }

  /** What the last token decides: a key, or why there is none. */
  function Finish(token: string, mods: seq<Modifier>, keyFromName: string -> Result<KeyCode, string>): Result<Key, string>
  {
    var keycode := keyFromName(token);
    if keycode.Err? then
      if ModifierFromString(token).Some? then Err("No key but only modifiers given") else Err(keycode.error)
    else match FirstDuplicate(mods, {})
      case Some(m) => Err(DuplicateMessage(m))
      case None => Ok(KeyOf(keycode.value, mods))
  }

  /** The loop of from_string from token i on, with the modifiers collected so far. */
  function ParseFrom(tokens: seq<string>, i: nat, mods: seq<Modifier>, keyFromName: string -> Result<KeyCode, string>): Result<Key, string>
    decreases |tokens| - i
  {
    if i >= |tokens| then Err("empty input")
    else if |tokens[i]| == 0 then Err("Empty token")
    else if i + 1 == |tokens| then Finish(tokens[i], mods, keyFromName)
    else match ModifierFromString(tokens[i])
      case None => Err("Not a valid modifier: '" + tokens[i] + "'")
      case Some(m) => ParseFrom(tokens, i + 1, mods + [m], keyFromName)
  }

  /**
   * Key::from_string: the key a text such as "Ctrl + Shift + A" names.
   * keyFromName stands for SDL_GetKeyFromName and the message built from
   * SDL_GetError.
   */
  function ParseKey(value: string, keyFromName: string -> Result<KeyCode, string>): Result<Key, string>
  {
    ParseFrom(Tokens(value), 0, [], keyFromName)
  }

  /** Key::from_string. */
  method FromString(value: string, keyFromName: string -> Result<KeyCode, string>) returns (r: Result<Key, string>)
    ensures r == ParseKey(value, keyFromName)
  {
    var pieces := Split(value, '+');
    var tokens := pieces;
    for i := 0 to |tokens|
      invariant |tokens| == |pieces|
      invariant forall k :: 0 <= k < i ==> tokens[k] == Trim(pieces[k])
      invariant forall k :: i <= k < |tokens| ==> tokens[k] == pieces[k]
    {
      tokens := tokens[i := Trim(tokens[i])];
    }
    assert tokens == Tokens(value);

    var modifiers: seq<Modifier> := [];
    var i := 0;
    while i < |tokens|
      invariant 0 <= i <= |tokens|
      invariant ParseFrom(tokens, i, modifiers, keyFromName) == ParseKey(value, keyFromName)
    {
      var token := tokens[i];
      if |token| == 0 {
        return Err("Empty token");
      }
      if i + 1 == |tokens| {
        var keycode := keyFromName(token);
        if keycode.Err? {
          var modifier := ModifierFromString(token);
          if modifier.Some? {
            return Err("No key but only modifiers given");
          }
          return Err(keycode.error);
        }
        var duplicate := FindDuplicate(modifiers);
        if duplicate.Some? {
          return Err(DuplicateMessage(duplicate.value));
        }
        var mask := SdlModifierFromModifiers(modifiers);
        return Ok(Key(keycode.value, mask));
      }
      var modifier := ModifierFromString(token);
      if modifier.None? {
        return Err("Not a valid modifier: '" + token + "'");
      }
      modifiers := modifiers + [modifier.value];
      i := i + 1;
    }
    return Err("empty input");
  }

  // ----- what the parser accepts and rejects -----

  /** Tokens i to j - 1 are non-empty modifier names standing before the last token. */
  predicate ModifiersBetween(tokens: seq<string>, i: nat, j: nat)
  {
    i <= j < |tokens|
    && forall k :: i <= k < j ==> |tokens[k]| > 0 && ModifierFromString(tokens[k]).Some?
  }

  /** The parser walks over modifier tokens, collecting what they name. */
  lemma {:induction false} ParseFromSkip(tokens: seq<string>, i: nat, j: nat, mods: seq<Modifier>, keyFromName: string -> Result<KeyCode, string>)
    requires ModifiersBetween(tokens, i, j)
    ensures ParseFrom(tokens, i, mods, keyFromName) == ParseFrom(tokens, j, mods + ModsOf(tokens[i..j]), keyFromName)
    decreases j - i
  {
    if i == j {
      assert mods + ModsOf(tokens[i..j]) == mods;
    } else {
      var m := ModifierFromString(tokens[i]).value;
      ParseFromSkip(tokens, i + 1, j, mods + [m], keyFromName);
      ModsOfCons(tokens, i, j, mods);
    }
  }

  /** The text is a '+'-separated list of modifier names, none repeated, then the name of a key. */
  predicate WellFormedKey(value: string, keyFromName: string -> Result<KeyCode, string>)
  {
    var tokens := Tokens(value);
    var last := |tokens| - 1;
    ModifiersBetween(tokens, 0, last) && |tokens[last]| > 0 && keyFromName(tokens[last]).Ok?
    && Distinct(ModsOf(tokens[..last]))
  }

  /** from_string succeeds exactly on well-formed texts, with the named key and the OR of the named modifiers. */
  lemma ParseKeyOk(value: string, keyFromName: string -> Result<KeyCode, string>)
    ensures ParseKey(value, keyFromName).Ok? <==> WellFormedKey(value, keyFromName)
    ensures WellFormedKey(value, keyFromName) ==>
      var tokens := Tokens(value);
      ParseKey(value, keyFromName) == Ok(KeyOf(keyFromName(tokens[|tokens| - 1]).value, ModsOf(tokens[..|tokens| - 1])))
  {
    if WellFormedKey(value, keyFromName) {
      WellFormedParses(value, keyFromName);
    }
    if ParseKey(value, keyFromName).Ok? {
      ParsedWellFormed(value, keyFromName);
    }
  }

  /** A well-formed text parses to its key and modifiers. */
  lemma WellFormedParses(value: string, keyFromName: string -> Result<KeyCode, string>)
    requires WellFormedKey(value, keyFromName)
    ensures
      var tokens := Tokens(value);
      ParseKey(value, keyFromName) == Ok(KeyOf(keyFromName(tokens[|tokens| - 1]).value, ModsOf(tokens[..|tokens| - 1])))
  {
    var tokens := Tokens(value);
    var last := |tokens| - 1;
    ParseUpToLast(tokens, last, keyFromName);
    FirstDuplicateIff(ModsOf(tokens[..last]), {});
    FinishOk(tokens[last], ModsOf(tokens[..last]), keyFromName);
  }

  /** A key after distinct modifiers is accepted with them. */
  lemma FinishOk(token: string, mods: seq<Modifier>, keyFromName: string -> Result<KeyCode, string>)
    requires keyFromName(token).Ok? && FirstDuplicate(mods, {}).None?
    ensures Finish(token, mods, keyFromName) == Ok(KeyOf(keyFromName(token).value, mods))
  {
  }

  /** A text that parses is well formed. */
  lemma ParsedWellFormed(value: string, keyFromName: string -> Result<KeyCode, string>)
    requires ParseKey(value, keyFromName).Ok?
    ensures WellFormedKey(value, keyFromName)
  {
    var tokens := Tokens(value);
    var last := |tokens| - 1;
    ParseFromOk(tokens, 0, [], keyFromName);
    assert [] + ModsOf(tokens[0..last]) == ModsOf(tokens[..last]);
    FirstDuplicateIff(ModsOf(tokens[..last]), {});
  }

  /** What a successful parse from token i on implies about the tokens and the collected modifiers. */
  lemma {:induction false} ParseFromOk(tokens: seq<string>, i: nat, mods: seq<Modifier>, keyFromName: string -> Result<KeyCode, string>)
    requires ParseFrom(tokens, i, mods, keyFromName).Ok?
    ensures ModifiersBetween(tokens, i, |tokens| - 1)
    ensures |tokens[|tokens| - 1]| > 0 && keyFromName(tokens[|tokens| - 1]).Ok?
    ensures FirstDuplicate(mods + ModsOf(tokens[i..|tokens| - 1]), {}).None?
    decreases |tokens| - i
  {
    var last := |tokens| - 1;
    if i < last {
      assert |tokens[i]| > 0 && ModifierFromString(tokens[i]).Some?;
      var m := ModifierFromString(tokens[i]).value;
      assert ParseFrom(tokens, i + 1, mods + [m], keyFromName).Ok?;
      ParseFromOk(tokens, i + 1, mods + [m], keyFromName);
      ModsOfCons(tokens, i, last, mods);
    } else {
      assert mods + ModsOf(tokens[i..i]) == mods;
    }
  }

  /** Collecting the modifier of token i, then those of the tokens up to j, is collecting those of i to j. */
  lemma ModsOfCons(tokens: seq<string>, i: nat, j: nat, mods: seq<Modifier>)
    requires i < j <= |tokens| && forall k :: i <= k < j ==> ModifierFromString(tokens[k]).Some?
    ensures mods + [ModifierFromString(tokens[i]).value] + ModsOf(tokens[i + 1..j]) == mods + ModsOf(tokens[i..j])
  {
    assert tokens[i..j][1..] == tokens[i + 1..j];
    assert ModsOf(tokens[i..j]) == [ModifierFromString(tokens[i]).value] + ModsOf(tokens[i + 1..j]);
  }

  /** The first empty token, after valid modifiers only, is rejected as such. */
  lemma EmptyTokenRejected(value: string, keyFromName: string -> Result<KeyCode, string>, j: nat)
    requires ModifiersBetween(Tokens(value), 0, j) && |Tokens(value)[j]| == 0
    ensures ParseKey(value, keyFromName) == Err("Empty token")
  {
    ParseFromSkip(Tokens(value), 0, j, [], keyFromName);
  }

  /** The first token before the last that names no modifier is rejected, quoted. */
  lemma InvalidModifierRejected(value: string, keyFromName: string -> Result<KeyCode, string>, j: nat)
    requires ModifiersBetween(Tokens(value), 0, j) && j + 1 < |Tokens(value)|
    requires |Tokens(value)[j]| > 0 && ModifierFromString(Tokens(value)[j]).None?
    ensures ParseKey(value, keyFromName) == Err("Not a valid modifier: '" + Tokens(value)[j] + "'")
  {
    ParseFromSkip(Tokens(value), 0, j, [], keyFromName);
  }

  /** A last token that is no key but a modifier is reported as such; otherwise the lookup's error is. */
  lemma MissingKeyRejected(value: string, keyFromName: string -> Result<KeyCode, string>)
    requires ModifiersBetween(Tokens(value), 0, |Tokens(value)| - 1)
    requires |Tokens(value)[|Tokens(value)| - 1]| > 0 && keyFromName(Tokens(value)[|Tokens(value)| - 1]).Err?
    ensures ModifierFromString(Tokens(value)[|Tokens(value)| - 1]).Some? ==>
      ParseKey(value, keyFromName) == Err("No key but only modifiers given")
    ensures ModifierFromString(Tokens(value)[|Tokens(value)| - 1]).None? ==>
      ParseKey(value, keyFromName) == Err(keyFromName(Tokens(value)[|Tokens(value)| - 1]).error)
  {
    ParseFromSkip(Tokens(value), 0, |Tokens(value)| - 1, [], keyFromName);
  }

  /** A repeated modifier is reported by name, the first one found repeated. */
  lemma DuplicateRejected(value: string, keyFromName: string -> Result<KeyCode, string>)
    requires ModifiersBetween(Tokens(value), 0, |Tokens(value)| - 1)
    requires |Tokens(value)[|Tokens(value)| - 1]| > 0 && keyFromName(Tokens(value)[|Tokens(value)| - 1]).Ok?
    requires !Distinct(ModsOf(Tokens(value)[..|Tokens(value)| - 1]))
    ensures
      var mods := ModsOf(Tokens(value)[..|Tokens(value)| - 1]);
      FirstDuplicate(mods, {}).Some?
      && ParseKey(value, keyFromName) == Err(DuplicateMessage(FirstDuplicate(mods, {}).value))
  {
    DuplicateTokensRejected(Tokens(value), keyFromName);
  }

  /** The parse of the tokens, when a modifier repeats before a valid key. */
  lemma DuplicateTokensRejected(tokens: seq<string>, keyFromName: string -> Result<KeyCode, string>)
    requires |tokens| > 0 && ModifiersBetween(tokens, 0, |tokens| - 1)
    requires |tokens[|tokens| - 1]| > 0 && keyFromName(tokens[|tokens| - 1]).Ok?
    requires !Distinct(ModsOf(tokens[..|tokens| - 1]))
    ensures
      var mods := ModsOf(tokens[..|tokens| - 1]);
      FirstDuplicate(mods, {}).Some?
      && ParseFrom(tokens, 0, [], keyFromName) == Err(DuplicateMessage(FirstDuplicate(mods, {}).value))
  {
    var last := |tokens| - 1;
    var mods := ModsOf(tokens[..last]);
    ParseUpToLast(tokens, last, keyFromName);
    ParseLast(tokens, last, mods, keyFromName);
    RepeatFound(mods);
    FinishDuplicate(tokens[last], mods, keyFromName);
  }

  /** A non-empty last token is where the key is read. */
  lemma ParseLast(tokens: seq<string>, last: nat, mods: seq<Modifier>, keyFromName: string -> Result<KeyCode, string>)
    requires last + 1 == |tokens| && |tokens[last]| > 0
    ensures ParseFrom(tokens, last, mods, keyFromName) == Finish(tokens[last], mods, keyFromName)
  {
  }

  /** A list that repeats a modifier has a first duplicate. */
  lemma RepeatFound(mods: seq<Modifier>)
    requires !Distinct(mods)
    ensures FirstDuplicate(mods, {}).Some?
  {
    FirstDuplicateIff(mods, {});
  }

  /** A key after a repeated modifier is rejected naming the first duplicate. */
  lemma FinishDuplicate(token: string, mods: seq<Modifier>, keyFromName: string -> Result<KeyCode, string>)
    requires keyFromName(token).Ok? && FirstDuplicate(mods, {}).Some?
    ensures Finish(token, mods, keyFromName) == Err(DuplicateMessage(FirstDuplicate(mods, {}).value))
  {
  }

  /** The parser reaches the last token with the modifiers of all tokens before it. */
  lemma ParseUpToLast(tokens: seq<string>, last: nat, keyFromName: string -> Result<KeyCode, string>)
    requires ModifiersBetween(tokens, 0, last)
    ensures ParseFrom(tokens, 0, [], keyFromName) == ParseFrom(tokens, last, ModsOf(tokens[..last]), keyFromName)
  {
    ParseFromSkip(tokens, 0, last, [], keyFromName);
    assert [] + ModsOf(tokens[0..last]) == ModsOf(tokens[..last]);
  }

  /** The empty text is one empty token. */
  lemma EmptyTextRejected(keyFromName: string -> Result<KeyCode, string>)
    ensures ParseKey("", keyFromName) == Err("Empty token")
  {
    assert Split("", '+') == [""];
    assert Tokens("")[0] == Trim("");
  }
}
