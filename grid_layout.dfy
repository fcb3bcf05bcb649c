// ui::GridLayout (src/ui/layouts/grid_layout.cpp): a layout that splits its
// rectangle, less a margin on each side, into `size` equal cells in a row
// (horizontal) or a column (vertical), with a fixed gap between neighbours.
// All arithmetic is on u32 and wraps modulo 2^32 as the source's does.

module GridLayouts {
  import opened Bytes
  import opened Wrappers

  /** ui::Direction. */
  datatype Direction = Horizontal | Vertical

  /** An AbsolutLayout: the top left corner and the extent. */
  datatype Cell = Cell(x: u32, y: u32, width: u32, height: u32)

  /**
   * What get_layout_for_index reads: the number of cells, the direction, the
   * gap between cells, the absolute margins (already converted from the
   * fractions the constructor takes) and the layout's own rectangle.
   */
  datatype Grid = Grid(size: u32, direction: Direction, gap: u32, marginX: u32, marginY: u32, area: Cell)

  /** u32 division, which never exceeds the dividend. */
  function Div(a: u32, b: u32): (r: u32)
    requires b > 0
    ensures r == a / b
  {
    assert a / b <= a by {
      DivBelow(a, b);
    }
    a / b
  }

  lemma DivBelow(a: nat, b: nat)
    requires b > 0
    ensures a / b <= a
  {
    var q := a / b;
    assert a == q * b + a % b;
    MulMono(1, b, q);
  }

  /** total_size: how many cells the grid has room for. */
  function TotalSize(g: Grid): u32
  {
    g.size
  }

  /** The gaps between the cells: size - 1 of them (none for a single cell). */
  function TotalMargin(size: u32, gap: u32): u32
  {
    if size <= 1 then 0 else Wrap32((size - 1) * gap)
  }

  /** The cell extent along the grid's direction: the room left by the gaps and margins, shared by size. */
  function CellExtent(total: u32, margin: u32, size: u32, gap: u32): u32
    requires size > 0
  {
    Div(Wrap32(Wrap32(total - TotalMargin(size, gap)) - Wrap32(margin * 2)), size)
  }

  /** The start of cell index along the grid's direction: after the margin, index gaps and index cells. */
  function CellStart(origin: u32, margin: u32, extent: u32, gap: u32, index: u32): u32
  {
    Wrap32(Wrap32(origin + margin) + Wrap32(Wrap32(index * gap) + Wrap32(extent * index)))
  }

  /** get_layout_for_index: the rectangle of cell index, or an error once all cells are taken. */
  function LayoutForIndex(g: Grid, index: u32): Result<Cell, string>
  {
    if index >= g.size then Err("GridLayout is already full")
    else
      var width := Wrap32(g.area.width - Wrap32(g.marginX * 2));
      var height := Wrap32(g.area.height - Wrap32(g.marginY * 2));
      match g.direction
      case Horizontal =>
        var w := CellExtent(g.area.width, g.marginX, g.size, g.gap);
        Ok(Cell(CellStart(g.area.x, g.marginX, w, g.gap, index), Wrap32(g.area.y + g.marginY), w, height))
      case Vertical =>
        var h := CellExtent(g.area.height, g.marginY, g.size, g.gap);
        Ok(Cell(Wrap32(g.area.x + g.marginX), CellStart(g.area.y, g.marginY, h, g.gap, index), width, h))
  }

  /** A cell exists exactly for the indices below the grid's size. */
  lemma CellExistsIff(g: Grid, index: u32)
    ensures LayoutForIndex(g, index).Ok? <==> index < TotalSize(g)
    ensures LayoutForIndex(g, index).Err? ==> LayoutForIndex(g, index).error == "GridLayout is already full"
  {
  }

  // ----- the debug assertions -----

  /** The horizontal assertion: the width exceeds the gaps and both side margins (on u32). */
  predicate HorizontalAssertion(g: Grid)
  {
    g.area.width > Wrap32(TotalMargin(g.size, g.gap) + Wrap32(g.marginX * 2))
  }

  /** The vertical assertion as written: the margins are subtracted from the gaps instead of added. */
  predicate VerticalAssertionAsWritten(g: Grid)
  {
    g.area.height > Wrap32(TotalMargin(g.size, g.gap) - Wrap32(g.marginY * 2))
  }

  /** The vertical assertion as intended, the mirror image of the horizontal one. */
  predicate VerticalAssertion(g: Grid)
  {
    g.area.height > Wrap32(TotalMargin(g.size, g.gap) + Wrap32(g.marginY * 2))
  }

  /**
   * Three cells 20 high with a gap of 10 and a margin of 5 pass the vertical
   * assertion as written, yet the gaps and margins (30) exceed the height, so
   * the u32 cell height wraps around to a huge value.
   */
  lemma VerticalAssertionAsWrittenCounterexample()
    ensures var g := Grid(3, Vertical, 10, 0, 5, Cell(0, 0, 100, 20));
      VerticalAssertionAsWritten(g) && !VerticalAssertion(g)
      && LayoutForIndex(g, 0).Ok? && LayoutForIndex(g, 0).value.height > g.area.height
  {
    var g := Grid(3, Vertical, 10, 0, 5, Cell(0, 0, 100, 20));
    assert TotalMargin(3, 10) == 20;
    assert Wrap32(5 * 2) == 10;
    assert Wrap32(20 - 10) == 10;
    assert Wrap32(20 - 20) == 0;
    assert Wrap32(0 - 10) == 4294967286;
    assert CellExtent(20, 5, 3, 10) == 1431655762;
  }

  // ----- the cell geometry -----

  /**
   * Along one axis the cells fit: the span lies within the u32 range and the
   * gaps and both margins leave room inside it.
   */
  predicate AxisFits(origin: u32, total: u32, margin: u32, size: u32, gap: u32)
  {
    size >= 1 && origin + total < U32Limit && (size - 1) * gap + 2 * margin < total
  }

  /** The grid fits along its direction, and its margins fit across it. */
  predicate Fits(g: Grid)
  {
    match g.direction
    case Horizontal =>
      AxisFits(g.area.x, g.area.width, g.marginX, g.size, g.gap)
      && g.area.y + g.area.height < U32Limit && 2 * g.marginY <= g.area.height
    case Vertical =>
      AxisFits(g.area.y, g.area.height, g.marginY, g.size, g.gap)
      && g.area.x + g.area.width < U32Limit && 2 * g.marginX <= g.area.width
  }

  lemma Distribute(a: int, b: int, c: int)
    ensures a * (b + c) == a * b + c * a
  {
  }

  lemma LastCellEnd(n: int, g: int, e: int)
    ensures (n - 1) * (g + e) + e == (n - 1) * g + e * n
  {
  }

  lemma MulMono(a: nat, b: nat, c: nat)
    requires a <= b
    ensures a * c <= b * c
  {
  }

  /** The room the cells of an axis share: the span less the gaps and both margins. */
  function Free(total: u32, margin: u32, size: u32, gap: u32): int
  {
    total - (size - 1) * gap - 2 * margin
  }

  lemma GapsFit(total: u32, margin: u32, size: u32, gap: u32)
    requires size >= 1 && (size - 1) * gap + 2 * margin < total
    ensures TotalMargin(size, gap) == (size - 1) * gap
    ensures Wrap32(margin * 2) == 2 * margin
  {
    var gaps := (size - 1) * gap;
    assert 0 <= gaps by {
      MulMono(0, size - 1, gap);
    }
    if size <= 1 {
      assert size - 1 == 0;
      assert gaps == 0;
    }
  }

  /**
   * When an axis fits, the cell extent is the free room divided by the
   * number of cells (rounded down), and cell index starts after the margin
   * and index cells and gaps, ending before the far margin.
   */
  lemma {:induction false} AxisGeometry(origin: u32, total: u32, margin: u32, size: u32, gap: u32, index: u32)
    requires AxisFits(origin, total, margin, size, gap) && index < size
    ensures CellExtent(total, margin, size, gap) == Free(total, margin, size, gap) / size
    ensures CellStart(origin, margin, CellExtent(total, margin, size, gap), gap, index)
      == origin + margin + index * (gap + CellExtent(total, margin, size, gap))
    ensures index * (gap + CellExtent(total, margin, size, gap)) + CellExtent(total, margin, size, gap)
      <= total - 2 * margin
  {
    GapsFit(total, margin, size, gap);
    var free := Free(total, margin, size, gap);
    assert Wrap32(Wrap32(total - TotalMargin(size, gap)) - Wrap32(margin * 2)) == free;
    var e := CellExtent(total, margin, size, gap);
    assert e == free / size;
    CellBounds(size, gap, e, index, free);
    Distribute(index, gap, e);
    assert 0 <= index * gap < U32Limit && 0 <= e * index < U32Limit;
    assert Wrap32(index * gap) == index * gap;
    assert Wrap32(e * index) == e * index;
  }

  /** Cell index and its gaps, at an equal share e of the free room each, end within the gaps and the free room. */
  lemma CellBounds(size: nat, gap: nat, e: nat, index: nat, free: nat)
    requires index < size && e == free / size
    ensures 0 <= index * gap <= (size - 1) * gap && 0 <= e * index <= free
    ensures index * gap + e * index + e <= (size - 1) * gap + free
  {
    assert e * size <= free by {
      assert free == e * size + free % size;
    }
    MulMono(0, index, gap);
    MulMono(0, index, e);
    MulMono(index, size - 1, gap);
    MulMono(index, size - 1, e);
    LastCellEnd(size, gap, e);
  }

  /**
   * The cell of index, when the grid fits: along the direction it has an
   * equal share of the free room and starts after the margin and index
   * cells and gaps; across it, it covers the whole area inside the margins.
   */
  lemma CellGeometry(g: Grid, index: u32)
    requires Fits(g) && index < g.size
    ensures LayoutForIndex(g, index).Ok?
    ensures var c := LayoutForIndex(g, index).value;
      match g.direction
      case Horizontal =>
        c.width == Free(g.area.width, g.marginX, g.size, g.gap) / g.size
        && c.x == g.area.x + g.marginX + index * (g.gap + c.width)
        && c.y == g.area.y + g.marginY && c.height == g.area.height - 2 * g.marginY
      case Vertical =>
        c.height == Free(g.area.height, g.marginY, g.size, g.gap) / g.size
        && c.y == g.area.y + g.marginY + index * (g.gap + c.height)
        && c.x == g.area.x + g.marginX && c.width == g.area.width - 2 * g.marginX
  {
    match g.direction
    case Horizontal =>
      AxisGeometry(g.area.x, g.area.width, g.marginX, g.size, g.gap, index);
    case Vertical =>
      AxisGeometry(g.area.y, g.area.height, g.marginY, g.size, g.gap, index);
  }

  /** The start of a cell along the grid's direction. */
  function Start(c: Cell, d: Direction): nat
  {
    if d == Horizontal then c.x else c.y
  }

  /** The extent of a cell along the grid's direction. */
  function Length(c: Cell, d: Direction): nat
  {
    if d == Horizontal then c.width else c.height
  }

  /**
   * Neighbouring cells are one cell and one gap apart and have the same
   * extent, so they never overlap.
   */
  lemma Neighbours(g: Grid, index: u32)
    requires Fits(g) && index + 1 < g.size
    ensures LayoutForIndex(g, index).Ok? && LayoutForIndex(g, index + 1).Ok?
    ensures var a, b := LayoutForIndex(g, index).value, LayoutForIndex(g, index + 1).value;
      Length(a, g.direction) == Length(b, g.direction)
      && Start(b, g.direction) == Start(a, g.direction) + Length(a, g.direction) + g.gap
      && Start(a, g.direction) + Length(a, g.direction) <= Start(b, g.direction)
  {
    CellGeometry(g, index);
    CellGeometry(g, index + 1);
    var a := LayoutForIndex(g, index).value;
    var e := Length(a, g.direction);
    assert (index + 1) * (g.gap + e) == index * (g.gap + e) + g.gap + e;
  }

  /** Every cell ends no later than the area less its far margin. */
  lemma CellInside(g: Grid, index: u32)
    requires Fits(g) && index < g.size
    ensures LayoutForIndex(g, index).Ok?
    ensures var c := LayoutForIndex(g, index).value;
      match g.direction
      case Horizontal => c.x + c.width <= g.area.x + g.area.width - g.marginX
      case Vertical => c.y + c.height <= g.area.y + g.area.height - g.marginY
  {
    match g.direction
    case Horizontal =>
      AxisGeometry(g.area.x, g.area.width, g.marginX, g.size, g.gap, index);
    case Vertical =>
      AxisGeometry(g.area.y, g.area.height, g.marginY, g.size, g.gap, index);
  }

  /** Under Fits the source's assertion for the direction holds (the corrected one for vertical grids). */
  lemma FitsAsserted(g: Grid)
    requires Fits(g)
    ensures g.direction == Horizontal ==> HorizontalAssertion(g)
    ensures g.direction == Vertical ==> VerticalAssertion(g)
  {
    match g.direction
    case Horizontal => GapsFit(g.area.width, g.marginX, g.size, g.gap);
    case Vertical => GapsFit(g.area.height, g.marginY, g.size, g.gap);
  }
}
