// ui::TextInput (src/ui/components/textinput.cpp): a one-line text field. The
// text is a UTF-8 byte string; the cursor counts code points and stays in
// [0, number of code points]. Editing inserts at the cursor, backspace
// deletes the code point before it, and the arrow keys move it.

module TextInputs {
  import opened Bytes
  import opened Wrappers
  import opened Utf8

  /** The EventHandleType requests handle_event can return with its widget. */
  datatype Request = RequestFocus | RequestAction

  /**
   * The events handle_event distinguishes. Pointer is an event detect_hover
   * reported as over the field (clicked or not); ctrl says whether a Ctrl
   * modifier was down; Typed carries the bytes of an SDL_TEXTINPUT event up
   * to their terminating NUL. VDown carries what the clipboard holds (None
   * when SDL_HasClipboardText says it holds no text, the bytes up to their
   * NUL otherwise) and whether the text field of the event, which the source
   * reads through the event union of a key event, is empty. That the bytes
   * of Typed and of the clipboard hold no NUL is the caller's convention:
   * the model applies no UpToNul to them.
   */
  datatype TextEvent =
    | Pointer(clicked: bool)
    | ReturnDown
    | BackspaceDown(ctrl: bool)
    | LeftDown(ctrl: bool)
    | RightDown(ctrl: bool)
    | Typed(bytes: seq<u8>)
    | VDown(ctrl: bool, clipboard: Option<seq<u8>>, eventTextEmpty: bool)
    | CDown(ctrl: bool)
    | Editing
    | Other

  /** The text as code points and the cursor, the state the editing rules speak about. */
  datatype Edit = Edit(text: seq<CodePoint>, cursor: nat)
  {
    predicate Valid()
    {
      cursor <= |text|
    }
  }

  // ----- the editing rules on code points -----

  /** The bytes c_str() hands to a C function: those before the first NUL. */
  function UpToNul(s: seq<u8>): (r: seq<u8>)
    ensures r <= s && 0 !in r
    ensures r == s || s[|r|] == 0
  {
    if |s| == 0 || s[0] == 0 then []
    else [s[0]] + UpToNul(s[1..])
  }

  /** add_string of valid input: the code points go in at the cursor, which moves past them. */
  function Inserted(e: Edit, add: seq<CodePoint>): (r: Edit)
    requires e.Valid()
    ensures r.Valid() && |r.text| == |e.text| + |add| && r.cursor == e.cursor + |add|
    ensures r.text[..e.cursor] == e.text[..e.cursor]
    ensures r.text[e.cursor..r.cursor] == add
    ensures r.text[r.cursor..] == e.text[e.cursor..]
  {
    var text := e.text[..e.cursor] + add + e.text[e.cursor..];
    assert text[..e.cursor] == e.text[..e.cursor];
    assert text[e.cursor..e.cursor + |add|] == add;
    assert text[e.cursor + |add|..] == e.text[e.cursor..];
    Edit(text, e.cursor + |add|)
  }

  /** remove_at_cursor: the code point before the cursor goes; nothing happens at the start. */
  function Removed(e: Edit): (r: Edit)
    requires e.Valid()
    ensures r.Valid()
    ensures e.cursor == 0 ==> r == e
    ensures e.cursor > 0 ==> (|r.text| == |e.text| - 1 && r.cursor == e.cursor - 1 &&
      r.text[..r.cursor] == e.text[..r.cursor] && r.text[r.cursor..] == e.text[e.cursor..])
  {
    if e.cursor == 0 then e
    else
      var text := e.text[..e.cursor - 1] + e.text[e.cursor..];
      assert text[..e.cursor - 1] == e.text[..e.cursor - 1];
      assert text[e.cursor - 1..] == e.text[e.cursor..];
      Edit(text, e.cursor - 1)
  }

  /**
   * handle_event on the text and the cursor: whether the event was handled, the
   * request returned with it, the new state and the bytes put on the clipboard.
   */
  function Handled(e: Edit, event: TextEvent): (r: (bool, Option<Request>, Edit, Option<seq<u8>>))
    requires e.Valid()
    ensures r.2.Valid()
    ensures r.3.Some? <==> event.CDown? && event.ctrl
    ensures r.0 <==> !(event.Other? || ((event.VDown? || event.CDown?) && !event.ctrl))
  {
    match event
    case Pointer(clicked) => (true, if clicked then Some(RequestFocus) else None, e, None)
    case ReturnDown => (true, Some(RequestAction), e, None)
    case BackspaceDown(ctrl) =>
      (true, None, if |e.text| == 0 then e else if ctrl then Edit([], 0) else Removed(e), None)
    case LeftDown(ctrl) =>
      (true, None, if e.cursor == 0 then e else if ctrl then e.(cursor := 0) else e.(cursor := e.cursor - 1), None)
    case RightDown(ctrl) =>
      (true, None, if e.cursor < |e.text| then (if ctrl then e.(cursor := |e.text|) else e.(cursor := e.cursor + 1)) else e, None)
    case Typed(bytes) =>
      (true, None, if |bytes| == 0 || bytes[0] == 0x0A || !IsValid(bytes) then e else Inserted(e, Decode(bytes).value), None)
    case VDown(ctrl, clipboard, eventTextEmpty) =>
      if !ctrl then (false, None, e, None)
      else if clipboard.None? || eventTextEmpty || !IsValid(clipboard.value) then (true, None, e, None)
      else (true, None, Inserted(e, Decode(clipboard.value).value), None)
    case CDown(ctrl) =>
      if !ctrl then (false, None, e, None) else (true, None, e, Some(UpToNul(EncodeAll(e.text))))
    case Editing => (true, None, e, None)
    case Other => (false, None, e, None)
  }

  // ----- what the editing rules promise -----

  /** Typing one code point and then pressing backspace gives back the text and the cursor. */
  lemma TypeThenBackspace(e: Edit, c: CodePoint)
    requires e.Valid()
    ensures Handled(Inserted(e, [c]), BackspaceDown(false)).2 == e
  {
    var typed := Inserted(e, [c]);
    var back := Removed(typed);
    assert back.text == e.text[..e.cursor] + e.text[e.cursor..];
    assert e.text == e.text[..e.cursor] + e.text[e.cursor..];
  }

  /** Ctrl+Backspace empties the field and puts the cursor at its start. */
  lemma CtrlBackspaceEmpties(e: Edit)
    requires e.Valid()
    ensures Handled(e, BackspaceDown(true)).2 == Edit([], 0)
  {
  }

  /** Left then Right gives back the cursor, away from the start; Right then Left likewise, away from the end. */
  lemma LeftRightInverse(e: Edit)
    requires e.Valid()
    ensures e.cursor > 0 ==> Handled(Handled(e, LeftDown(false)).2, RightDown(false)).2 == e
    ensures e.cursor < |e.text| ==> Handled(Handled(e, RightDown(false)).2, LeftDown(false)).2 == e
  {
  }

  /** Ctrl+Left and Ctrl+Right move to the two ends, and leave the text alone. */
  lemma CtrlArrowsJump(e: Edit)
    requires e.Valid()
    ensures Handled(e, LeftDown(true)).2 == e.(cursor := 0)
    ensures Handled(e, RightDown(true)).2 == e.(cursor := |e.text|)
  {
  }

  /** Typed bytes that are not well-formed UTF-8 change nothing. */
  lemma InvalidTypingIgnored(e: Edit, bytes: seq<u8>)
    requires e.Valid() && !IsValid(bytes)
    ensures Handled(e, Typed(bytes)).2 == e
  {
  }

  /** Ctrl+V inserts valid clipboard text at the cursor. */
  lemma PasteInserts(e: Edit, clip: seq<u8>)
    requires e.Valid() && IsValid(clip)
    ensures Handled(e, VDown(true, Some(clip), false)).2 == Inserted(e, Decode(clip).value)
  {
    var event := VDown(true, Some(clip), false);
    assert event.clipboard.Some? && !event.eventTextEmpty && IsValid(event.clipboard.value);
  }

  /** Ctrl+V with clipboard bytes that are not valid UTF-8 changes nothing. */
  lemma InvalidPasteIgnored(e: Edit, clip: seq<u8>, eventTextEmpty: bool)
    requires e.Valid() && !IsValid(clip)
    ensures Handled(e, VDown(true, Some(clip), eventTextEmpty)) == (true, None, e, None)
  {
  }

  /** Ctrl+C puts the text on the clipboard and leaves the field as it is. */
  lemma CopyKeeps(e: Edit)
    requires e.Valid()
    ensures Handled(e, CDown(true)) == (true, None, e, Some(UpToNul(EncodeAll(e.text))))
  {
  }

  /**
   * Copying a text without NUL and pasting it into an empty field gives the
   * text back, with the cursor at its end.
   */
  lemma CopyPasteRoundTrip(e: Edit)
    requires e.Valid() && 0 !in EncodeAll(e.text)
    ensures Handled(e, CDown(true)).3 == Some(EncodeAll(e.text))
    ensures Handled(Edit([], 0), VDown(true, Handled(e, CDown(true)).3, false)).2 == Edit(e.text, |e.text|)
  {
    DecodeEncode(e.text);
    var t := EncodeAll(e.text);
    assert UpToNul(t) == t;
  }

  /** Inserting code points splices their bytes into the text's bytes at the cursor's byte offset. */
  lemma InsertedBytes(e: Edit, add: seq<u8>)
    requires e.Valid() && IsValid(add)
    ensures EncodeAll(Inserted(e, Decode(add).value).text) ==
      EncodeAll(e.text[..e.cursor]) + add + EncodeAll(e.text[e.cursor..])
  {
    var adding := Decode(add).value;
    EncodeDecode(add);
    EncodeAllConcat(e.text[..e.cursor] + adding, e.text[e.cursor..]);
    EncodeAllConcat(e.text[..e.cursor], adding);
  }

  // ----- the widget -----

  class TextInput {
    /** m_text: UTF-8 bytes. */
    var text: seq<u8>
    /** m_cursor_position, in code points. */
    var cursor: nat
    var hasFocus: bool

    /** The constructor: an empty text, the cursor at 0, focused when the widget is top level. */
    constructor (isTopLevel: bool)
      ensures Valid() && text == [] && cursor == 0 && hasFocus == isTopLevel
    {
      text := [];
      cursor := 0;
      hasFocus := isTopLevel;
    }

    /** The text is well-formed and the cursor within its code points. */
    predicate Valid()
      reads this
    {
      IsValid(text) && cursor <= Distance(text)
    }

    function Current(): (e: Edit)
      reads this
      requires Valid()
      ensures e.Valid()
    {
      Edit(Decode(text).value, cursor)
    }

    /** add_string: false and no change on invalid UTF-8; otherwise the code points go in at the cursor. */
    method AddString(add: seq<u8>) returns (ok: bool)
      requires Valid()
      modifies this
      ensures Valid() && hasFocus == old(hasFocus)
      ensures ok == IsValid(add)
      ensures !ok ==> text == old(text) && cursor == old(cursor)
      ensures ok ==> Current() == Inserted(old(Current()), Decode(add).value)
    {
      if !IsValid(add) {
        return false;
      }
      var cps := Decode(text).value;
      var adding := Decode(add).value;
      var result := Spliced(cps, cursor, adding);
      DecodeEncode(cps[..cursor] + adding + cps[cursor..]);
      text := result;
      cursor := cursor + |adding|;
      return true;
    }

    /** The loop of add_string: the bytes of the text's code points, with the added ones at the cursor. */
    static method Spliced(cps: seq<CodePoint>, cursor: nat, adding: seq<CodePoint>) returns (result: seq<u8>)
      requires cursor <= |cps|
      ensures result == EncodeAll(cps[..cursor] + adding + cps[cursor..])
    {
      result := [];
      ghost var out: seq<CodePoint> := [];
      var i := 0;
      while true
        invariant i <= |cps| && result == EncodeAll(out)
        invariant out == if i <= cursor then cps[..i] else cps[..cursor] + adding + cps[cursor..i]
        decreases |cps| - i
      {
        if i == cursor {
          result := AppendAll(result, adding, out);
          out := out + adding;
        }
        if i == |cps| {
          assert out == cps[..cursor] + adding + cps[cursor..];
          break;
        }
        EncodeAllSnoc(out, cps[i]);
        result := result + Encode(cps[i]);
        out := out + [cps[i]];
        if i < cursor {
          assert cps[..i + 1] == cps[..i] + [cps[i]];
        } else {
          assert cps[cursor..i + 1] == cps[cursor..i] + [cps[i]];
        }
        i := i + 1;
      }
    }

    /** The inner loop of add_string: append the bytes of each added code point. */
    static method AppendAll(result: seq<u8>, adding: seq<CodePoint>, ghost out: seq<CodePoint>) returns (r: seq<u8>)
      requires result == EncodeAll(out)
      ensures r == EncodeAll(out + adding)
    {
      r := result;
      assert out + adding[..0] == out;
      for j := 0 to |adding|
        invariant r == EncodeAll(out + adding[..j])
      {
        EncodeAllSnoc(out + adding[..j], adding[j]);
        assert out + adding[..j + 1] == out + adding[..j] + [adding[j]];
        r := r + Encode(adding[j]);
      }
      assert adding[..|adding|] == adding;
    }

    /** remove_at_cursor: false and no change at the start; otherwise the code point before the cursor goes. */
    method RemoveAtCursor() returns (removed: bool)
      requires Valid()
      modifies this
      ensures Valid() && hasFocus == old(hasFocus)
      ensures removed == (old(cursor) != 0)
      ensures Current() == Removed(old(Current()))
    {
      if cursor == 0 {
        return false;
      }
      var cps := Decode(text).value;
      var start := |EncodeAll(cps[..cursor - 1])|;
      var end := start + |Encode(cps[cursor - 1])|;
      RemovedAt(text, cursor, start, end);
      text := text[..start] + text[end..];
      cursor := cursor - 1;
      return true;
    }

    /** handle_event, for the events that concern the text and the cursor. */
    method HandleEvent(event: TextEvent) returns (handled: bool, request: Option<Request>, copied: Option<seq<u8>>)
      requires Valid()
      modifies this
      ensures Valid() && hasFocus == old(hasFocus)
      ensures (handled, request, Current(), copied) == Handled(old(Current()), event)
    {
      if event.Pointer? {
        return true, if event.clicked then Some(RequestFocus) else None, None;
      } else if event.ReturnDown? {
        return true, Some(RequestAction), None;
      } else if event.BackspaceDown? {
        if |text| != 0 {
          if event.ctrl {
            text := [];
            cursor := 0;
            return true, None, None;
          }
          var _ := RemoveAtCursor();
        }
        return true, None, None;
      } else if event.LeftDown? {
        if cursor != 0 {
          if event.ctrl {
            cursor := 0;
          } else {
            cursor := cursor - 1;
          }
        }
        return true, None, None;
      } else if event.RightDown? {
        var length := Distance(text);
        if cursor < length {
          if event.ctrl {
            cursor := length;
          } else {
            cursor := cursor + 1;
          }
        }
        return true, None, None;
      } else if event.Typed? {
        if |event.bytes| == 0 || event.bytes[0] == 0x0A {
          return true, None, None;
        }
        var _ := AddString(event.bytes);
        return true, None, None;
      } else if event.VDown? {
        if event.ctrl {
          if event.clipboard.Some? {
            if event.eventTextEmpty {
              return true, None, None;
            }
            var _ := AddString(event.clipboard.value);
          }
          return true, None, None;
        }
        return false, None, None;
      } else if event.CDown? {
        if event.ctrl {
          EncodeDecode(text);
          return true, None, Some(UpToNul(text));
        }
        return false, None, None;
      } else if event.Editing? {
        return true, None, None;
      }
      return false, None, None;
    }

    /** set_text: the field is emptied, the text added, and the focus given up. */
    method SetText(t: seq<u8>)
      requires Valid()
      modifies this
      ensures Valid() && !hasFocus
      ensures IsValid(t) ==> text == t && cursor == Distance(t)
      ensures !IsValid(t) ==> text == [] && cursor == 0
    {
      text := [];
      cursor := 0;
      var ok := AddString(t);
      if ok {
        assert Decode(text).value == Decode(t).value;
        EncodeDecode(t);
        EncodeDecode(text);
      }
      if hasFocus {
        hasFocus := false;
      }
    }
  }

  /** The bytes of the code point before cursor c lie at the offset of the code points before it; cutting them out removes that code point. */
  lemma RemovedBytes(text: seq<u8>, c: nat)
    requires IsValid(text) && 0 < c <= Distance(text)
    ensures var cps := Decode(text).value;
      var start := |EncodeAll(cps[..c - 1])|;
      var end := start + |Encode(cps[c - 1])|;
      start <= end <= |text| &&
      IsValid(text[..start] + text[end..]) && Decode(text[..start] + text[end..]).value == cps[..c - 1] + cps[c..]
  {
    var cps := Decode(text).value;
    var before := cps[..c - 1];
    var after := cps[c..];
    assert cps == before + [cps[c - 1]] + after;
    EncodeDecode(text);
    EncodeAllConcat(before + [cps[c - 1]], after);
    EncodeAllSnoc(before, cps[c - 1]);
    var start := |EncodeAll(before)|;
    var end := start + |Encode(cps[c - 1])|;
    assert text == EncodeAll(before) + Encode(cps[c - 1]) + EncodeAll(after);
    assert text[..start] == EncodeAll(before);
    assert text[end..] == EncodeAll(after);
    EncodeAllConcat(before, after);
    DecodeEncode(before + after);
  }

  /** The edit that cutting out the bytes of the code point before cursor c makes. */
  lemma RemovedAt(text: seq<u8>, c: nat, start: nat, end: nat)
    requires IsValid(text) && 0 < c <= Distance(text)
    requires start == |EncodeAll(Decode(text).value[..c - 1])|
    requires end == start + |Encode(Decode(text).value[c - 1])|
    ensures start <= end <= |text| && IsValid(text[..start] + text[end..])
    ensures c - 1 <= Distance(text[..start] + text[end..])
    ensures Edit(Decode(text[..start] + text[end..]).value, c - 1) == Removed(Edit(Decode(text).value, c))
  {
    RemovedBytes(text, c);
  }

  lemma EncodeAllSnoc(out: seq<CodePoint>, c: CodePoint)
    ensures EncodeAll(out + [c]) == EncodeAll(out) + Encode(c)
  {
    EncodeAllConcat(out, [c]);
    assert [c][1..] == [];
  }
}
