// ui::ScrollLayout (src/ui/layouts/scroll_layout.cpp): a column of widgets
// taller than the area it is shown in. The widgets are stacked from y = 0
// with a gap between them; a viewport of the main area's height selects the
// visible part, and a requested scroll offset is clamped so that the
// viewport stays inside the content. Coordinates are u32 and wrap modulo
// 2^32 as the source's do.

module ScrollLayouts {
  import opened Bytes
  import opened Wrappers

  /** A shapes::URect given by its top left corner and its extent; its bottom edge is y + height. */
  datatype Rect = Rect(x: u32, y: u32, width: u32, height: u32)

  /** bottom_right.y of a rectangle (u32). */
  function Bottom(r: Rect): u32
  {
    Wrap32(r.y + r.height)
  }

  /** total_widgets_height: the bottom edge of the last widget, 0 without widgets. */
  function TotalHeight(items: seq<Rect>): u32
  {
    if |items| == 0 then 0 else Bottom(items[|items| - 1])
  }

  /**
   * The viewport recalculate_sizes chooses for a requested top edge: the whole
   * content from 0 when it is shorter than the scrollbar, and otherwise a
   * window of the main area's height whose top is the request, moved to 0
   * when negative and up to the last full window when it would reach past the
   * content (on u32, as written).
   */
  function ViewportFor(total: u32, desired: i32, width: u32, height: u32, scrollbarHeight: u32): Rect
  {
    if total < scrollbarHeight then Rect(0, 0, width, total)
    else
      var top: u32 :=
        if desired < 0 then 0
        else if Wrap32(desired + height) > total then Wrap32(total - height)
        else desired;
      Rect(0, top, width, height)
  }

  /** The value lo <= r <= hi closest to x, as an independent statement of clamping. */
  function Clamp(x: int, lo: int, hi: int): (r: int)
    requires lo <= hi
    ensures lo <= r <= hi
    ensures lo <= x <= hi ==> r == x
    ensures x < lo ==> r == lo
    ensures x > hi ==> r == hi
  {
    if x < lo then lo else if x > hi then hi else x
  }

  /** Content shorter than the scrollbar is shown whole, from the top. */
  lemma ShortContentShownWhole(total: u32, desired: i32, width: u32, height: u32, scrollbarHeight: u32)
    requires total < scrollbarHeight
    ensures ViewportFor(total, desired, width, height, scrollbarHeight) == Rect(0, 0, width, total)
  {
  }

  /**
   * Otherwise (with the scrollbar as tall as the main area, as the
   * constructor makes it) the viewport is one main area high and its top is
   * the request clamped to [0, total - height].
   */
  lemma ViewportClamped(total: u32, desired: i32, width: u32, height: u32)
    requires total >= height && desired + height < U32Limit
    ensures var v := ViewportFor(total, desired, width, height, height);
      v.x == 0 && v.width == width && v.height == height
      && v.y == Clamp(desired, 0, total - height)
      && v.y + v.height <= total
  {
    if desired >= 0 {
      assert Wrap32(desired + height) == desired + height;
    }
  }

  /** Asking for the top the viewport already has leaves it where it is. */
  lemma ViewportStable(total: u32, desired: i32, width: u32, height: u32)
    requires total >= height && desired + height < U32Limit
    ensures var v := ViewportFor(total, desired, width, height, height);
      v.y < 0x8000_0000 ==> ViewportFor(total, v.y, width, height, height) == v
  {
    ViewportClamped(total, desired, width, height);
    var v := ViewportFor(total, desired, width, height, height);
    if v.y < 0x8000_0000 {
      ViewportClamped(total, v.y, width, height);
    }
  }

  /** The sum of the widgets' heights, u32 as get_layout_for_new adds them. */
  function SumHeights(items: seq<Rect>): u32
  {
    if |items| == 0 then 0 else Wrap32(SumHeights(items[..|items| - 1]) + items[|items| - 1].height)
  }

  /** The sum of the widgets' heights, without wrap-around. */
  function Heights(items: seq<Rect>): nat
  {
    if |items| == 0 then 0 else Heights(items[..|items| - 1]) + items[|items| - 1].height
  }

  /** Below 2^32 the u32 sum is the mathematical sum. */
  lemma {:induction false} SumHeightsExact(items: seq<Rect>)
    requires Heights(items) < U32Limit
    ensures SumHeights(items) == Heights(items)
  {
    if |items| > 0 {
      SumHeightsExact(items[..|items| - 1]);
    }
  }

  /**
   * get_layout_for_new: a new widget of the given height goes at x = 0 below
   * all the widgets and their gaps, as wide as the main area.
   */
  function NewItem(items: seq<Rect>, gap: u32, width: u32, height: u32): Rect
  {
    Rect(0, Wrap32(SumHeights(items) + Wrap32(gap * U32Cast(|items|))), width, height)
  }

  /**
   * The widgets are stacked: each at x = 0, as wide as the main area, and
   * starting below the heights of the widgets before it and one gap after
   * each of them.
   */
  predicate Stacked(items: seq<Rect>, gap: u32, width: u32)
  {
    forall i :: 0 <= i < |items| ==>
      items[i].x == 0 && items[i].width == width && items[i].y == Heights(items[..i]) + gap * i
  }

  lemma MulMono(a: nat, b: nat, c: nat)
    requires a <= b
    ensures a * c <= b * c
  {
  }

  /** Below 2^32 the new widget's top edge is the exact sum of the heights and gaps before it. */
  lemma NewItemTop(items: seq<Rect>, gap: u32, width: u32, height: u32)
    requires Heights(items) + gap * |items| < U32Limit
    ensures NewItem(items, gap, width, height).y == Heights(items) + gap * |items|
  {
    var n := |items|;
    MulMono(0, gap, n);
    SumHeightsExact(items);
    if gap > 0 {
      MulMono(1, gap, n);
      assert U32Cast(n) == n;
    } else {
      assert gap * U32Cast(n) == 0;
    }
  }

  /** Adding a widget where get_layout_for_new puts it keeps the column stacked while it fits in u32. */
  lemma AddKeepsStacked(items: seq<Rect>, gap: u32, width: u32, height: u32)
    requires Stacked(items, gap, width)
    requires Heights(items) + gap * |items| < U32Limit
    ensures Stacked(items + [NewItem(items, gap, width, height)], gap, width)
  {
    var n := |items|;
    var item := NewItem(items, gap, width, height);
    var next := items + [item];
    NewItemTop(items, gap, width, height);
    assert next[..n] == items;
    forall i | 0 <= i < |next|
      ensures next[i].x == 0 && next[i].width == width && next[i].y == Heights(next[..i]) + gap * i
    {
      if i < n {
        assert next[i] == items[i];
        assert next[..i] == items[..i];
      } else {
        assert next[i] == item;
      }
    }
  }

  /** In a stacked column each widget starts one gap below the bottom of the one before it. */
  lemma StackedNeighbours(items: seq<Rect>, gap: u32, width: u32, i: nat)
    requires Stacked(items, gap, width) && i + 1 < |items|
    ensures items[i + 1].y == items[i].y + items[i].height + gap
  {
    assert items[..i + 1][..i] == items[..i];
  }

  /** static_cast<int> of a u32: the two's complement reading of its bits. */
  function ToInt(x: u32): (r: i32)
    ensures x < 0x8000_0000 ==> r == x
  {
    Pow256Widths();
    SignedFromUnsigned(x, 4)
  }

  /** The scroll request of a mouse wheel turn: one step below or above the viewport's top (u32). */
  function WheelRequest(top: u32, step: u32, down: bool): i32
  {
    if down then ToInt(Wrap32(top + step)) else ToInt(Wrap32(top - step))
  }

  /** Away from the ends of the u32 range the wheel asks for exactly one step down or up. */
  lemma WheelRequestExact(top: u32, step: u32, down: bool)
    requires top + step < 0x8000_0000 && step <= top
    ensures WheelRequest(top, step, down) == if down then top + step else top - step
  {
  }

  /** get_layout_for_index is not supported by a scroll layout: it always fails. */
  function LayoutForIndex(index: u32): (r: Result<Rect, string>)
    ensures r.Err? && r.error == "NOT SUPPORTED"
  {
    Err("NOT SUPPORTED")
  }

  /**
   * ui::ScrollLayout: the rectangles of its widgets' layouts, whether a render
   * texture exists, the viewport, the gap, the main area's extent, the
   * scrollbar's height and the wheel step.
   */
  class ScrollLayout {
    var items: seq<Rect>
    var hasTexture: bool
    var viewport: Rect
    const gap: u32
    const mainWidth: u32
    const mainHeight: u32
    const scrollbarHeight: u32
    const stepSize: u32

    /** The scrollbar is as tall as the main area. */
    ghost predicate Valid()
      reads this
    {
      scrollbarHeight == mainHeight
    }

    /**
     * The constructor, given the main area's extent it derives from the
     * layout's rectangle and margins, and the wheel step: no widgets, no
     * texture and an empty viewport.
     */
    constructor(gap: u32, mainWidth: u32, mainHeight: u32, stepSize: u32)
      ensures Valid() && items == [] && !hasTexture && viewport == Rect(0, 0, 0, 0)
      ensures this.gap == gap && this.mainWidth == mainWidth && this.mainHeight == mainHeight
      ensures this.stepSize == stepSize
    {
      this.gap := gap;
      this.mainWidth := mainWidth;
      this.mainHeight := mainHeight;
      this.scrollbarHeight := mainHeight;
      this.stepSize := stepSize;
      items := [];
      hasTexture := false;
      viewport := Rect(0, 0, 0, 0);
    }

    /** recalculate_sizes (the viewport; the scrollbar mover's floating point ratios are not modelled). */
    method RecalculateSizes(desired: i32)
      modifies this`viewport
      ensures viewport == ViewportFor(TotalHeight(items), desired, mainWidth, mainHeight, scrollbarHeight)
    {
      var total := if |items| == 0 then 0 else Bottom(items[|items| - 1]);
      if total < scrollbarHeight {
        viewport := Rect(0, 0, mainWidth, total);
      } else {
        var scrollHeight: u32;
        if desired < 0 {
          scrollHeight := 0;
        } else if Wrap32(desired + mainHeight) > total {
          scrollHeight := Wrap32(total - mainHeight);
        } else {
          scrollHeight := desired;
        }
        viewport := Rect(0, scrollHeight, mainWidth, mainHeight);
      }
    }

    /** get_layout_for_new: sums the widgets' heights, then adds one gap per widget. */
    method LayoutForNew(height: u32) returns (r: Rect)
      ensures r == NewItem(items, gap, mainWidth, height)
    {
      var start: u32 := 0;
      for i := 0 to |items|
        invariant start == SumHeights(items[..i])
      {
        assert items[..i + 1][..i] == items[..i];
        start := Wrap32(start + items[i].height);
      }
      assert items[..|items|] == items;
      start := Wrap32(start + Wrap32(gap * U32Cast(|items|)));
      r := Rect(0, start, mainWidth, height);
    }

    /**
     * add (scroll_layout.hpp): the widget goes below the others, a render
     * texture for the content is made and the viewport scrolls to the top.
     */
    method Add(height: u32) returns (index: nat)
      modifies this
      ensures index == old(|items|)
      ensures items == old(items) + [NewItem(old(items), gap, mainWidth, height)]
      ensures hasTexture
      ensures viewport == ViewportFor(TotalHeight(items), 0, mainWidth, mainHeight, scrollbarHeight)
    {
      var layout := LayoutForNew(height);
      index := |items|;
      items := items + [layout];
      hasTexture := true;
      RecalculateSizes(0);
    }

    /** clear_widgets: no widgets, no texture, and the viewport of empty content. */
    method ClearWidgets()
      modifies this
      ensures items == [] && !hasTexture
      ensures viewport == ViewportFor(0, 0, mainWidth, mainHeight, scrollbarHeight)
    {
      items := [];
      hasTexture := false;
      RecalculateSizes(0);
    }

    /** The mouse wheel: a request one step down or up from the viewport's top. */
    method MouseWheel(down: bool)
      modifies this`viewport
      ensures viewport == ViewportFor(TotalHeight(items), WheelRequest(old(viewport).y, stepSize, down),
                                      mainWidth, mainHeight, scrollbarHeight)
    {
      var desired: i32;
      if down {
        desired := ToInt(Wrap32(viewport.y + stepSize));
      } else {
        desired := ToInt(Wrap32(viewport.y - stepSize));
      }
      RecalculateSizes(desired);
    }
  }
}
