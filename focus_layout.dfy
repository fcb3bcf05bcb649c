// Keyboard focus in a layout of widgets (src/ui/layouts/focus_layout.cpp):
// the focusable widgets are ordered by their focus id, and a navigation step
// moves the focus to the next or previous id, wrapping around if the layout
// asks for it. Focusable widgets are values inside the layout (their focus
// flag is a field of that value), so unfocus and focus are updates of the
// layout's widget sequence.

module FocusLayouts {
  import opened Wrappers

  /** ui::FocusChangeDirection. */
  datatype Direction = Forward | Backward

  /** ui::FocusOptions. */
  datatype Options = Options(wrapAround: bool, allowTab: bool)

  /** A widget of the layout: focusable when it has a focus id, and whether it has the focus. */
  datatype Widget = Widget(focusId: Option<nat>, focused: bool)

  /** ui::EventHandleType. */
  datatype EventHandleType = RequestFocus | RequestUnFocus | RequestAction

  /** Widget::InnerState: the request and the data it carries. */
  datatype InnerState = InnerState(kind: EventHandleType, data: nat)

  /** input::NavigationEvent. */
  datatype NavigationEvent = Ok | Down | Up | Left | Right | Back | Tab

  /** What the layout holds: its widgets, the id of the focused one, its own focus and its options. */
  datatype LayoutState = LayoutState(widgets: seq<Widget>, focusId: Option<nat>, hasFocus: bool, options: Options)

  // ----- focus ids -----

  predicate HasId(ws: seq<Widget>, id: nat)
  {
    exists i :: 0 <= i < |ws| && ws[i].focusId == Some(id)
  }

  /** The focus ids of the focusable widgets, in widget order. */
  function Ids(ws: seq<Widget>): (r: seq<nat>)
    ensures forall x :: x in r <==> HasId(ws, x)
  {
    if |ws| == 0 then []
    else
      var init := ws[..|ws| - 1];
      var last := ws[|ws| - 1];
      assert forall x: nat :: HasId(init, x) ==> HasId(ws, x) by {
        forall x: nat | HasId(init, x) ensures HasId(ws, x) {
          var i :| 0 <= i < |init| && init[i].focusId == Some(x);
          assert ws[i] == init[i];
        }
      }
      assert forall x: nat :: HasId(ws, x) ==> HasId(init, x) || last.focusId == Some(x) by {
        forall x: nat | HasId(ws, x) ensures HasId(init, x) || last.focusId == Some(x) {
          var i :| 0 <= i < |ws| && ws[i].focusId == Some(x);
          if i < |init| {
            assert init[i] == ws[i];
          }
        }
      }
      Ids(init) + (if last.focusId.Some? then [last.focusId.value] else [])
  }

  /** No two focusable widgets share a focus id. */
  predicate DistinctIds(ws: seq<Widget>)
  {
    forall i, j :: 0 <= i < j < |ws| && ws[i].focusId.Some? ==> ws[i].focusId != ws[j].focusId
  }

  predicate Distinct(xs: seq<nat>)
  {
    forall i, j :: 0 <= i < j < |xs| ==> xs[i] != xs[j]
  }

  /** Distinct widget ids make a list of ids without duplicates. */
  lemma {:induction false} DistinctIdsList(ws: seq<Widget>)
    requires DistinctIds(ws)
    ensures Distinct(Ids(ws))
  {
    if |ws| > 0 {
      var init := ws[..|ws| - 1];
      var last := ws[|ws| - 1];
      assert DistinctIds(init);
      DistinctIdsList(init);
      if last.focusId.Some? {
        assert !HasId(init, last.focusId.value) by {
          forall i | 0 <= i < |init| ensures init[i].focusId != last.focusId {
            assert init[i] == ws[i];
          }
        }
      }
    }
  }

  /** The first widget with the given focus id (focusable_index_by_id). */
  function WidgetIndex(ws: seq<Widget>, id: nat): (r: nat)
    requires HasId(ws, id)
    ensures r < |ws| && ws[r].focusId == Some(id)
    ensures forall k :: 0 <= k < r ==> ws[k].focusId != Some(id)
  {
    if ws[0].focusId == Some(id) then 0
    else
      assert HasId(ws[1..], id) by {
        var i :| 0 <= i < |ws| && ws[i].focusId == Some(id);
        assert ws[1..][i - 1] == ws[i];
      }
      1 + WidgetIndex(ws[1..], id)
  }

  /** With distinct ids, the widget carrying an id is the one WidgetIndex finds. */
  lemma WidgetIndexUnique(ws: seq<Widget>, id: nat, i: nat)
    requires DistinctIds(ws) && i < |ws| && ws[i].focusId == Some(id)
    ensures WidgetIndex(ws, id) == i
  {
  }

  /** Focus flags do not change which widget carries which id. */
  lemma {:induction false} IdsIgnoreFocus(ws: seq<Widget>, i: nat, f: bool)
    requires i < |ws|
    ensures Ids(ws[i := ws[i].(focused := f)]) == Ids(ws)
  {
    var ws' := ws[i := ws[i].(focused := f)];
    if i < |ws| - 1 {
      assert ws'[..|ws'| - 1] == ws[..|ws| - 1][i := ws[i].(focused := f)];
      IdsIgnoreFocus(ws[..|ws| - 1], i, f);
    } else {
      assert ws'[..|ws'| - 1] == ws[..|ws| - 1];
    }
  }

  // ----- sorting (std::ranges::sort) -----

  predicate Sorted(xs: seq<nat>)
  {
    forall i, j :: 0 <= i < j < |xs| ==> xs[i] <= xs[j]
  }

  function Insert(x: nat, xs: seq<nat>): (r: seq<nat>)
    requires Sorted(xs)
    ensures Sorted(r) && multiset(r) == multiset(xs) + multiset{x}
  {
    if |xs| == 0 || x <= xs[0] then [x] + xs
    else
      var rest := Insert(x, xs[1..]);
      assert xs == [xs[0]] + xs[1..];
      assert forall k :: 0 <= k < |rest| ==> xs[0] <= rest[k] by {
        forall k | 0 <= k < |rest| ensures xs[0] <= rest[k] {
          assert rest[k] in multiset(rest);
        }
      }
      [xs[0]] + rest
  }

  /** The ids in ascending order. */
  function Sort(xs: seq<nat>): (r: seq<nat>)
    ensures Sorted(r) && multiset(r) == multiset(xs)
  {
    if |xs| == 0 then []
    else
      assert xs == [xs[0]] + xs[1..];
      Insert(xs[0], Sort(xs[1..]))
  }

  lemma {:induction false} InsertDistinct(x: nat, xs: seq<nat>)
    requires Sorted(xs) && Distinct(xs) && x !in xs
    ensures Distinct(Insert(x, xs))
  {
    if |xs| > 0 && x > xs[0] {
      InsertDistinct(x, xs[1..]);
      var rest := Insert(x, xs[1..]);
      assert xs[0] !in multiset(rest) by {
        assert xs[0] != x && xs[0] !in xs[1..];
      }
    }
  }

  /** Sorting keeps a list free of duplicates. */
  lemma {:induction false} SortDistinct(xs: seq<nat>)
    requires Distinct(xs)
    ensures Distinct(Sort(xs))
  {
    if |xs| > 0 {
      SortDistinct(xs[1..]);
      assert xs[0] !in multiset(Sort(xs[1..])) by {
        assert xs[0] !in xs[1..];
      }
      InsertDistinct(xs[0], Sort(xs[1..]));
    }
  }

  /** A sorted list without duplicates is strictly increasing. */
  lemma Increasing(xs: seq<nat>, i: nat, j: nat)
    requires Sorted(xs) && Distinct(xs) && i < j < |xs|
    ensures xs[i] < xs[j]
  {
  }

  /** The position of needle, or the length when it is absent (std::ranges::find). */
  function IndexOf(ids: seq<nat>, needle: nat): (r: nat)
    ensures r <= |ids| && (r < |ids| <==> needle in ids)
    ensures r < |ids| ==> ids[r] == needle
    ensures forall k :: 0 <= k < r ==> ids[k] != needle
  {
    if |ids| == 0 then 0
    else if ids[0] == needle then 0
    else 1 + IndexOf(ids[1..], needle)
  }

  /** focusable_ids_sorted: the focus ids of the focusable widgets in ascending order. */
  function SortedIds(ws: seq<Widget>): (r: seq<nat>)
    ensures forall x :: x in r <==> HasId(ws, x)
    ensures Sorted(r)
    ensures DistinctIds(ws) ==> Distinct(r)
  {
    var r := Sort(Ids(ws));
    assert forall x :: x in r <==> x in multiset(Ids(ws));
    SortedIdsDistinct(ws);
    r
  }

  lemma SortedIdsDistinct(ws: seq<Widget>)
    ensures DistinctIds(ws) ==> Distinct(Sort(Ids(ws)))
  {
    if DistinctIds(ws) {
      DistinctIdsList(ws);
      SortDistinct(Ids(ws));
    }
  }

  // ----- moving the focus -----

  /**
   * The index the focus moves to among size ids, if any: one step forward or
   * backward; past either end it wraps around when wrap is set, and
   * otherwise there is none.
   */
  function NextIndex(current: nat, size: nat, dir: Direction, wrap: bool): (r: Option<nat>)
    requires current < size
    ensures r.Some? ==> r.value < size
  {
    var next: int := if dir == Forward then current + 1 else current - 1;
    if next < 0 && !wrap then None
    else
      var wrapped: int := if next < 0 then size + next else next;
      if wrapped >= size && !wrap then None
      else if wrapped >= size then Some(wrapped % size)
      else Some(wrapped)
  }

  /** Without wrap-around the step exists exactly when it stays in range; with it, the index wraps modulo size. */
  lemma NextIndexIff(current: nat, size: nat, dir: Direction, wrap: bool)
    requires current < size
    ensures var next: int := if dir == Forward then current + 1 else current - 1;
      NextIndex(current, size, dir, wrap) == if wrap then Some(next % size) else if 0 <= next < size then Some(next) else None
  {
  }

  /** A step forward is undone by a step backward. */
  lemma NextIndexBack(current: nat, size: nat, wrap: bool)
    requires current < size && NextIndex(current, size, Forward, wrap).Some?
    ensures var n := NextIndex(current, size, Forward, wrap).value;
      n < size && NextIndex(n, size, Backward, wrap) == Some(current)
  {
  }

  /** A step among two or more ids never stays on the same index. */
  lemma NextIndexMoves(current: nat, size: nat, dir: Direction, wrap: bool)
    requires current < size && size >= 2 && NextIndex(current, size, dir, wrap).Some?
    ensures var n := NextIndex(current, size, dir, wrap).value; n < size && n != current
  {
  }

  predicate Valid(st: LayoutState)
  {
    DistinctIds(st.widgets) && (st.focusId.Some? ==> HasId(st.widgets, st.focusId.value))
  }

  /** Exactly the widget carrying the layout's focus id has the focus. */
  predicate FocusAgrees(st: LayoutState)
  {
    forall i :: 0 <= i < |st.widgets| ==> (st.widgets[i].focused <==> st.focusId.Some? && st.widgets[i].focusId == st.focusId)
  }

  /** The widget with id from loses the focus, then the one with id to gets it. */
  function Refocus(ws: seq<Widget>, from: nat, to: nat): (r: seq<Widget>)
    requires HasId(ws, from) && HasId(ws, to)
    ensures |r| == |ws| && Ids(r) == Ids(ws)
    ensures forall i :: 0 <= i < |ws| ==> r[i].focusId == ws[i].focusId
  {
    var a := WidgetIndex(ws, from);
    var b := WidgetIndex(ws, to);
    var unfocused := ws[a := ws[a].(focused := false)];
    IdsIgnoreFocus(ws, a, false);
    IdsIgnoreFocus(unfocused, b, true);
    unfocused[b := unfocused[b].(focused := true)]
  }

  /** The focus passes from the focused widget to the one with id to. */
  function SwitchFocus(st: LayoutState, to: nat): LayoutState
    requires Valid(st) && st.focusId.Some? && HasId(st.widgets, to)
  {
    st.(widgets := Refocus(st.widgets, st.focusId.value, to), focusId := Some(to))
  }

  /**
   * The id try_set_next_focus moves the focus to, if any: nothing moves when
   * nothing is focused or only one focusable exists, or when the step leaves
   * the ids without wrap-around.
   */
  function NextTarget(st: LayoutState, dir: Direction): (r: Option<nat>)
    requires Valid(st)
    ensures r.Some? ==> st.focusId.Some? && HasId(st.widgets, r.value)
  {
    if st.focusId.None? then None
    else
      var ids := SortedIds(st.widgets);
      if |ids| == 1 then None
      else
        assert st.focusId.value in ids;
        var current := IndexOf(ids, st.focusId.value);
        match NextIndex(current, |ids|, dir, st.options.wrapAround)
        case None => None
        case Some(n) => Some(ids[n])
  }

  /** try_set_next_focus: whether the focus moved, and the new state. */
  function NextFocus(st: LayoutState, dir: Direction): (r: (bool, LayoutState))
    requires Valid(st)
    ensures r.0 <==> NextTarget(st, dir).Some?
    ensures !r.0 ==> r.1 == st
    ensures r.0 ==> r.1.focusId == NextTarget(st, dir) && r.1.hasFocus == st.hasFocus && r.1.options == st.options
  {
    match NextTarget(st, dir)
    case None => (false, st)
    case Some(to) => (true, SwitchFocus(st, to))
  }

  /** Switching the focus keeps the ids distinct and the focus flags in agreement with the focus id. */
  lemma SwitchFocusKeeps(st: LayoutState, to: nat)
    requires Valid(st) && FocusAgrees(st) && st.focusId.Some? && HasId(st.widgets, to)
    ensures Valid(SwitchFocus(st, to)) && FocusAgrees(SwitchFocus(st, to))
  {
    var ws := st.widgets;
    var from := st.focusId.value;
    var a, b := WidgetIndex(ws, from), WidgetIndex(ws, to);
    var r := Refocus(ws, from, to);
    assert r == ws[a := ws[a].(focused := false)][b := ws[a := ws[a].(focused := false)][b].(focused := true)];
    forall i | 0 <= i < |r|
      ensures r[i].focused <==> r[i].focusId == Some(to)
    {
      if i != a && i != b {
        assert r[i] == ws[i];
        if ws[i].focusId == Some(to) {
          WidgetIndexUnique(ws, to, i);
        }
      }
    }
    assert HasId(r, to) by {
      assert r[b].focusId == Some(to);
    }
  }

  /** Moving the focus keeps the ids distinct and the focus flags in agreement with the focus id. */
  lemma NextFocusKeeps(st: LayoutState, dir: Direction)
    requires Valid(st) && FocusAgrees(st)
    ensures Valid(NextFocus(st, dir).1) && FocusAgrees(NextFocus(st, dir).1)
  {
    var t := NextTarget(st, dir);
    if t.Some? {
      SwitchFocusKeeps(st, t.value);
    }
  }

  /**
   * The focus moves exactly when something is focused, there are at least
   * two focusables and the step is allowed; it then lands on the id at the
   * stepped index of the sorted ids.
   */
  lemma NextTargetIndex(st: LayoutState, dir: Direction)
    requires Valid(st)
    ensures var t := NextTarget(st, dir);
      var ids := SortedIds(st.widgets);
      (t.Some? <==> (st.focusId.Some? && |ids| >= 2
                     && NextIndex(IndexOf(ids, st.focusId.value), |ids|, dir, st.options.wrapAround).Some?))
      && (t.Some? ==> t == Some(ids[NextIndex(IndexOf(ids, st.focusId.value), |ids|, dir, st.options.wrapAround).value]))
  {
    if st.focusId.Some? {
      assert st.focusId.value in SortedIds(st.widgets);
    }
  }

  /** In a strictly increasing list, the neighbour of c lies between c and any other element on that side. */
  lemma {:induction false} Neighbours(ids: seq<nat>, c: nat, k: nat)
    requires Sorted(ids) && Distinct(ids) && c < |ids| && k < |ids|
    ensures ids[k] > ids[c] ==> c + 1 < |ids| && ids[c] < ids[c + 1] <= ids[k]
    ensures ids[k] < ids[c] ==> c >= 1 && ids[k] <= ids[c - 1] < ids[c]
  {
    if ids[k] > ids[c] {
      if k < c {
        Increasing(ids, k, c);
      }
      if k == c + 1 {
      } else {
        Increasing(ids, c + 1, k);
      }
      Increasing(ids, c, c + 1);
    }
    if ids[k] < ids[c] {
      if k > c {
        Increasing(ids, c, k);
      }
      if k != c - 1 {
        Increasing(ids, k, c - 1);
      }
      Increasing(ids, c - 1, c);
    }
  }

  /**
   * Without wrap-around, Forward focuses the smallest id above the current
   * one (and fails only when there is none); Backward focuses the largest id
   * below it.
   */
  lemma NextFocusInOrder(st: LayoutState, dir: Direction, other: nat)
    requires Valid(st) && st.focusId.Some? && !st.options.wrapAround && HasId(st.widgets, other)
    ensures var t := NextTarget(st, dir);
      var cur := st.focusId.value;
      (dir == Forward && other > cur ==> t.Some? && cur < t.value <= other)
      && (dir == Backward && other < cur ==> t.Some? && other <= t.value < cur)
  {
    var ids := SortedIds(st.widgets);
    var cur := st.focusId.value;
    assert cur in ids && other in ids;
    var c := IndexOf(ids, cur);
    var k := IndexOf(ids, other);
    NextTargetIndex(st, dir);
    NextIndexIff(c, |ids|, dir, false);
    Neighbours(ids, c, k);
  }

  /** A successful move forward followed by a move backward restores the layout exactly. */
  lemma ForwardThenBackward(st: LayoutState)
    requires Valid(st) && FocusAgrees(st) && NextFocus(st, Forward).0
    ensures NextFocusKeepsValid(st)
    ensures NextFocus(NextFocus(st, Forward).1, Backward).0
    ensures NextFocus(NextFocus(st, Forward).1, Backward).1 == st
  {
    var ws := st.widgets;
    var ids := SortedIds(ws);
    var from := st.focusId.value;
    assert from in ids;
    var c := IndexOf(ids, from);
    NextTargetIndex(st, Forward);
    var n := NextIndex(c, |ids|, Forward, st.options.wrapAround).value;
    var to := ids[n];
    var st1 := SwitchFocus(st, to);
    NextFocusKeeps(st, Forward);
    NextIndexBack(c, |ids|, st.options.wrapAround);
    NextIndexMoves(c, |ids|, Forward, st.options.wrapAround);
    assert to != from by {
      Moved(ids, c, n, from);
    }
    var ws1 := st1.widgets;
    assert Ids(ws1) == Ids(ws);
    assert SortedIds(ws1) == ids;
    assert IndexOf(ids, to) == n by {
      forall k | 0 <= k < n ensures ids[k] != to {
        Increasing(ids, k, n);
      }
    }
    NextTargetIndex(st1, Backward);
    assert NextTarget(st1, Backward) == Some(from);
    RefocusBack(st, to);
  }

  /** Handing the focus from a to b and back leaves the widgets as they were. */
  lemma RefocusBack(st: LayoutState, to: nat)
    requires Valid(st) && FocusAgrees(st) && st.focusId.Some? && HasId(st.widgets, to) && st.focusId.value != to
    ensures SwitchFocusKeepsValid(st, to)
    ensures SwitchFocus(SwitchFocus(st, to), st.focusId.value) == st
  {
    var ws := st.widgets;
    var from := st.focusId.value;
    SwitchFocusKeeps(st, to);
    var ws1 := Refocus(ws, from, to);
    var a, b := WidgetIndex(ws, from), WidgetIndex(ws, to);
    assert WidgetIndex(ws1, to) == b && WidgetIndex(ws1, from) == a by {
      WidgetIndexUnique(ws1, to, b);
      WidgetIndexUnique(ws1, from, a);
    }
    var back := Refocus(ws1, to, from);
    assert back == ws by {
      forall i | 0 <= i < |ws| ensures back[i] == ws[i] {
        if i == a {
          assert ws[a].focused;
        } else if i == b {
          assert !ws[b].focused;
        }
      }
    }
  }

  predicate SwitchFocusKeepsValid(st: LayoutState, to: nat)
    requires Valid(st) && st.focusId.Some? && HasId(st.widgets, to)
  {
    Valid(SwitchFocus(st, to)) && SwitchFocus(st, to).focusId.Some? && HasId(SwitchFocus(st, to).widgets, st.focusId.value)
  }

  predicate NextFocusKeepsValid(st: LayoutState)
    requires Valid(st)
  {
    Valid(NextFocus(st, Forward).1)
  }

  /** handle_focus_change_button_events: Down (or Tab when allowed) moves forward, Up moves backward. */
  function NavigationDirection(event: Option<NavigationEvent>, allowTab: bool): (r: Option<Direction>)
    ensures r == Some(Forward) <==> event == Some(Down) || (allowTab && event == Some(Tab))
    ensures r == Some(Backward) <==> event == Some(Up)
  {
    if event == Some(Down) || (allowTab && event == Some(Tab)) then Some(Forward)
    else if event == Some(Up) then Some(Backward)
    else None
  }

  // ----- requests from the widgets -----

  /**
   * handle_event_result: what the layout answers to the request a widget
   * sent, and the new state; a request from a widget that cannot take the
   * focus is an error.
   */
  function HandleResult(st: LayoutState, result: Option<InnerState>, w: nat): (Result<Option<InnerState>, string>, LayoutState)
    requires Valid(st) && w < |st.widgets|
  {
    match result
    case None => (Result.Ok(None), st)
    case Some(value) =>
      var widget := st.widgets[w];
      match value.kind
      case RequestFocus =>
        if widget.focusId.None? then (Err("Only Focusables can request focus!"), st)
        else if st.focusId.None? then (Result.Ok(None), st)
        else if st.focusId.value == widget.focusId.value then (Result.Ok(None), st)
        else
          assert HasId(st.widgets, widget.focusId.value);
          var next := SwitchFocus(st, widget.focusId.value);
          if !next.hasFocus then (Result.Ok(Some(InnerState(RequestFocus, value.data))), next)
          else (Result.Ok(None), next)
      case RequestUnFocus =>
        if !st.hasFocus then (Result.Ok(None), st)
        else if widget.focusId.None? then (Err("Only Focusables can request un-focus!"), st)
        else if st.focusId.None? then (Result.Ok(None), st)
        else if st.focusId.value != widget.focusId.value then (Result.Ok(None), st)
        else
          var (forward, afterForward) := NextFocus(st, Forward);
          if forward then (Result.Ok(None), afterForward)
          else if st.options.wrapAround then (Result.Ok(Some(InnerState(RequestUnFocus, value.data))), afterForward)
          else
            var (backward, afterBackward) := NextFocus(afterForward, Backward);
            if !backward then (Result.Ok(Some(InnerState(RequestUnFocus, value.data))), afterBackward)
            else (Result.Ok(None), afterBackward)
      case RequestAction => (Result.Ok(Some(InnerState(RequestAction, value.data))), st)
  }

  /** Answering a request keeps the ids distinct and the focus flags in agreement with the focus id. */
  lemma HandleResultKeeps(st: LayoutState, result: Option<InnerState>, w: nat)
    requires Valid(st) && FocusAgrees(st) && w < |st.widgets|
    ensures Valid(HandleResult(st, result, w).1) && FocusAgrees(HandleResult(st, result, w).1)
  {
    if result.Some? {
      var widget := st.widgets[w];
      match result.value.kind
      case RequestFocus =>
        if widget.focusId.Some? && st.focusId.Some? && st.focusId.value != widget.focusId.value {
          assert HasId(st.widgets, widget.focusId.value);
          SwitchFocusKeeps(st, widget.focusId.value);
        }
      case RequestUnFocus =>
        NextFocusKeeps(st, Forward);
        NextFocusKeeps(st, Backward);
      case RequestAction =>
    }
  }

  /** An action request is passed on unchanged and changes nothing. */
  lemma ActionForwarded(st: LayoutState, data: nat, w: nat)
    requires Valid(st) && w < |st.widgets|
    ensures HandleResult(st, Some(InnerState(RequestAction, data)), w) == (Result.Ok(Some(InnerState(RequestAction, data))), st)
  {
  }

  /** A focusable widget asking for the focus gets it; the request goes up only when the layout lacks the focus itself. */
  lemma FocusRequestGranted(st: LayoutState, data: nat, w: nat)
    requires Valid(st) && w < |st.widgets| && st.widgets[w].focusId.Some? && st.focusId.Some?
    ensures var r := HandleResult(st, Some(InnerState(RequestFocus, data)), w);
      r.1.focusId == st.widgets[w].focusId
      && r.0 == Result.Ok(if st.hasFocus || st.focusId == st.widgets[w].focusId then None else Some(InnerState(RequestFocus, data)))
  {
  }

  /**
   * The focused widget giving up the focus either hands it to another
   * widget, or, when there is none to step to, the request goes up with the
   * state unchanged.
   */
  lemma UnfocusRequest(st: LayoutState, data: nat, w: nat)
    requires Valid(st) && w < |st.widgets| && st.hasFocus && st.focusId.Some? && st.widgets[w].focusId == st.focusId
    ensures var r := HandleResult(st, Some(InnerState(RequestUnFocus, data)), w);
      (r.0 == Result.Ok(None) && r.1.focusId.Some? && r.1.focusId != st.focusId)
      || (r.0 == Result.Ok(Some(InnerState(RequestUnFocus, data))) && r.1 == st)
  {
    var ids := SortedIds(st.widgets);
    var cur := st.focusId.value;
    assert cur in ids;
    var c := IndexOf(ids, cur);
    NextTargetIndex(st, Forward);
    NextTargetIndex(st, Backward);
    if NextTarget(st, Forward).Some? {
      var n := NextIndex(c, |ids|, Forward, st.options.wrapAround).value;
      NextIndexMoves(c, |ids|, Forward, st.options.wrapAround);
      Moved(ids, c, n, cur);
    } else if !st.options.wrapAround && NextTarget(st, Backward).Some? {
      var n := NextIndex(c, |ids|, Backward, st.options.wrapAround).value;
      NextIndexMoves(c, |ids|, Backward, st.options.wrapAround);
      Moved(ids, c, n, cur);
    }
  }

  lemma Moved(ids: seq<nat>, c: nat, n: nat, cur: nat)
    requires Sorted(ids) && Distinct(ids) && c < |ids| && n < |ids| && n != c && ids[c] == cur
    ensures ids[n] != cur
  {
  }

  // ----- the layout object -----

  /** ui::FocusLayout: its widgets, the focused id, its own focus and its options. */
  class FocusLayout {
    var widgets: seq<Widget>
    var focusId: Option<nat>
    var hasFocus: bool
    const options: Options

    function State(): LayoutState
      reads this
    {
      LayoutState(widgets, focusId, hasFocus, options)
    }

    /** A layout starts empty; a top-level layout has the focus itself. */
    constructor(options: Options, isTopLevel: bool)
      ensures State() == LayoutState([], None, isTopLevel, options)
    {
      this.options := options;
      widgets := [];
      focusId := None;
      hasFocus := isTopLevel;
    }

    /** focusable_ids_sorted: collects the ids in widget order, then sorts them. */
    method FocusableIdsSorted() returns (result: seq<nat>)
      ensures result == SortedIds(widgets)
    {
      var ids: seq<nat> := [];
      for i := 0 to |widgets|
        invariant ids == Ids(widgets[..i])
      {
        assert widgets[..i + 1][..i] == widgets[..i];
        if widgets[i].focusId.Some? {
          ids := ids + [widgets[i].focusId.value];
        }
      }
      assert widgets[..|widgets|] == widgets;
      result := Sort(ids);
    }

    /** try_set_next_focus. */
    method TrySetNextFocus(dir: Direction) returns (moved: bool)
      requires Valid(State())
      modifies this
      ensures moved == NextFocus(old(State()), dir).0
      ensures State() == NextFocus(old(State()), dir).1
    {
      ghost var s0 := State();
      NextTargetIndex(s0, dir);
      if focusId.None? {
        return false;
      }
      var ids := FocusableIdsSorted();
      assert focusId.value in ids;
      if |ids| == 1 {
        return false;
      }
      var current := IndexOf(ids, focusId.value);
      var step := StepIndex(current, |ids|, dir);
      if step.None? {
        return false;
      }
      var next := step.value;
      assert NextTarget(s0, dir) == Some(ids[next]);
      MoveFocus(ids[current], ids[next]);
      return true;
    }

    /** The index arithmetic of try_set_next_focus. */
    method StepIndex(current: nat, size: nat, dir: Direction) returns (r: Option<nat>)
      requires current < size
      ensures r == NextIndex(current, size, dir, options.wrapAround)
    {
      var next: int := if dir == Forward then current + 1 else current - 1;
      if next < 0 {
        if !options.wrapAround {
          return None;
        }
        next := size + next;
      }
      if next >= size {
        if !options.wrapAround {
          return None;
        }
        next := next % size;
      }
      return Some(next);
    }

    /** The end of try_set_next_focus: the current widget is unfocused, the next one focused and its id kept. */
    method MoveFocus(from: nat, to: nat)
      requires Valid(State()) && focusId == Some(from) && HasId(widgets, to)
      modifies this
      ensures State() == SwitchFocus(old(State()), to)
    {
      var a := WidgetIndex(widgets, from);
      var b := WidgetIndex(widgets, to);
      var unfocused := widgets[a := widgets[a].(focused := false)];
      widgets := unfocused[b := unfocused[b].(focused := true)];
      focusId := Some(to);
    }

    /** handle_focus_change_button_events. */
    method FocusChangeButton(event: Option<NavigationEvent>) returns (handled: bool)
      requires Valid(State())
      modifies this
      ensures match NavigationDirection(event, options.allowTab)
        case None => !handled && State() == old(State())
        case Some(dir) => handled == NextFocus(old(State()), dir).0 && State() == NextFocus(old(State()), dir).1
    {
      handled := false;
      if event == Some(Down) || (options.allowTab && event == Some(Tab)) {
        handled := TrySetNextFocus(Forward);
      } else if event == Some(Up) {
        handled := TrySetNextFocus(Backward);
      }
    }

    /** give_focus: the layout remembers the widget's id and the widget takes the focus. */
    method GiveFocus(w: nat)
      requires w < |widgets| && widgets[w].focusId.Some?
      modifies this
      ensures focusId == old(widgets[w].focusId)
      ensures widgets == old(widgets[w := widgets[w].(focused := true)])
      ensures hasFocus == old(hasFocus)
    {
      focusId := widgets[w].focusId;
      widgets := widgets[w := widgets[w].(focused := true)];
    }

    /**
     * add (focus_layout.hpp): a new widget goes at the end; the first
     * focusable one added takes the focus.
     */
    method Add(widget: Widget) returns (index: nat)
      requires !widget.focused
      requires widget.focusId.Some? ==> !HasId(widgets, widget.focusId.value)
      requires Valid(State()) && FocusAgrees(State())
      modifies this
      ensures index == old(|widgets|) && |widgets| == index + 1
      ensures widgets[..index] == old(widgets) && widgets[index].focusId == widget.focusId
      ensures focusId == if old(focusId).None? then widget.focusId else old(focusId)
      ensures Valid(State()) && FocusAgrees(State())
    {
      index := |widgets|;
      widgets := widgets + [widget];
      assert forall x: nat :: HasId(old(widgets), x) ==> HasId(widgets, x) by {
        forall x: nat | HasId(old(widgets), x) ensures HasId(widgets, x) {
          var i :| 0 <= i < |old(widgets)| && old(widgets)[i].focusId == Some(x);
          assert widgets[i] == old(widgets)[i];
        }
      }
      if widget.focusId.Some? && focusId.None? {
        GiveFocus(index);
      }
    }

    /** handle_event_result. */
    method HandleEventResult(result: Option<InnerState>, w: nat) returns (r: Result<Option<InnerState>, string>)
      requires Valid(State()) && w < |widgets|
      modifies this
      ensures (r, State()) == HandleResult(old(State()), result, w)
    {
      if result.None? {
        return Result.Ok(None);
      }
      var value := result.value;
      if value.kind == RequestFocus {
        var widgetId := widgets[w].focusId;
        if widgetId.None? {
          return Err("Only Focusables can request focus!");
        }
        if focusId.None? {
          return Result.Ok(None);
        }
        if focusId.value == widgetId.value {
          return Result.Ok(None);
        }
        WidgetIndexUnique(widgets, widgetId.value, w);
        var a := WidgetIndex(widgets, focusId.value);
        var unfocused := widgets[a := widgets[a].(focused := false)];
        widgets := unfocused[w := unfocused[w].(focused := true)];
        focusId := widgetId;
        if !hasFocus {
          return Result.Ok(Some(InnerState(RequestFocus, value.data)));
        }
        return Result.Ok(None);
      } else if value.kind == RequestUnFocus {
        if !hasFocus {
          return Result.Ok(None);
        }
        var widgetId := widgets[w].focusId;
        if widgetId.None? {
          return Err("Only Focusables can request un-focus!");
        }
        if focusId.None? {
          return Result.Ok(None);
        }
        if focusId.value != widgetId.value {
          return Result.Ok(None);
        }
        var testForward := TrySetNextFocus(Forward);
        if !testForward {
          if options.wrapAround {
            return Result.Ok(Some(InnerState(RequestUnFocus, value.data)));
          }
          var testBackwards := TrySetNextFocus(Backward);
          if !testBackwards {
            return Result.Ok(Some(InnerState(RequestUnFocus, value.data)));
          }
        }
        return Result.Ok(None);
      } else {
        return Result.Ok(Some(InnerState(RequestAction, value.data)));
      }
    }
  }
}
