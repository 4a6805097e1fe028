/**
 * Geometry of `combine_images` in bip.py: the layout mode, the size of the
 * canvas and the position at which each image is pasted. The cell size is the
 * first image's width and height; `spacing` pixels separate neighbouring cells
 * along the layout axis.
 */
module Layout {
  import opened Results

  /** The two layout modes the compositor accepts. */
  datatype Axis = Horizontal | Vertical

  /** The message of the ValueError raised for any other mode. */
  const InvalidModeMessage := "Invalid mode. Must be 'horizontal' or 'vertical'."

  datatype Size = Size(width: int, height: int)
  datatype Point = Point(x: int, y: int)

  /** Recognises a mode string: exactly "horizontal" or "vertical", nothing else. */
  function ParseMode(mode: string): (r: Option<Axis>)
    ensures r == Some(Horizontal) <==> mode == "horizontal"
    ensures r == Some(Vertical) <==> mode == "vertical"
    ensures r == None <==> mode != "horizontal" && mode != "vertical"
  {
    if mode == "horizontal" then Some(Horizontal)
    else if mode == "vertical" then Some(Vertical)
    else None
  }

  /** The source's closed formula for `count` cells of extent `cell` with `spacing` between them. */
  function Span(count: nat, cell: nat, spacing: int): (r: int)
    ensures count == 1 ==> r == cell
  {
    cell * count + spacing * (count - 1)
  }

  /** The canvas size for a valid mode, from the cell size, the image count and the spacing. */
  function CanvasSize(axis: Axis, width: nat, height: nat, count: nat, spacing: int): (r: Size)
    ensures axis == Horizontal ==> r.height == height
    ensures axis == Vertical ==> r.width == width
    ensures count == 1 ==> r == Size(width, height)
  {
    match axis
    case Horizontal => Size(Span(count, width, spacing), height)
    case Vertical => Size(width, Span(count, height, spacing))
  }

  /** The closed form of the running paste position of the k-th image (0-based). */
  function Offset(axis: Axis, width: nat, height: nat, spacing: int, k: nat): (p: Point)
    ensures k == 0 ==> p == Point(0, 0)
    ensures axis == Horizontal ==> p.y == 0
    ensures axis == Vertical ==> p.x == 0
  {
    match axis
    case Horizontal => Point(k * (width + spacing), 0)
    case Vertical => Point(0, k * (height + spacing))
  }

  /**
   * An independent description of a strip: one cell, then, for every further
   * image, one gap followed by one more cell.
   */
  function Strip(count: nat, cell: nat, spacing: int): int
    requires count >= 1
  {
    if count == 1 then cell else Strip(count - 1, cell, spacing) + spacing + cell
  }

  /** The source's formula measures exactly a strip of cells and gaps. */
  lemma {:induction false} SpanIsStrip(count: nat, cell: nat, spacing: int)
    requires count >= 1
    ensures Span(count, cell, spacing) == Strip(count, cell, spacing)
  {
    if count > 1 {
      SpanIsStrip(count - 1, cell, spacing);
      calc {
        Span(count, cell, spacing);
        cell * (count - 1) + cell + spacing * (count - 2) + spacing;
        Span(count - 1, cell, spacing) + spacing + cell;
      }
    }
  }

  /**
   * The canvas is a strip along the layout axis and one cell deep across it:
   * horizontally `width*n + spacing*(n-1)` by `height`, vertically `width` by
   * `height*n + spacing*(n-1)`.
   */
  lemma CanvasIsStripOfCells(axis: Axis, width: nat, height: nat, count: nat, spacing: int)
    requires count >= 1
    ensures axis == Horizontal ==>
      CanvasSize(axis, width, height, count, spacing) == Size(Strip(count, width, spacing), height)
    ensures axis == Vertical ==>
      CanvasSize(axis, width, height, count, spacing) == Size(width, Strip(count, height, spacing))
  {
    SpanIsStrip(count, width, spacing);
    SpanIsStrip(count, height, spacing);
  }

  /** The first image goes to the origin, and each next one exactly one cell plus one gap further on. */
  lemma OffsetsAdvanceByCellAndGap(axis: Axis, width: nat, height: nat, spacing: int, k: nat)
    ensures Offset(axis, width, height, spacing, 0) == Point(0, 0)
    ensures axis == Horizontal ==>
      Offset(axis, width, height, spacing, k + 1) == Point(Offset(axis, width, height, spacing, k).x + width + spacing, 0)
    ensures axis == Vertical ==>
      Offset(axis, width, height, spacing, k + 1) == Point(0, Offset(axis, width, height, spacing, k).y + height + spacing)
  {
  }

  /** The far edge of the last image is the far edge of the canvas: the cells tile it exactly. */
  lemma LastCellEndsAtCanvasEdge(axis: Axis, width: nat, height: nat, count: nat, spacing: int)
    requires count >= 1
    ensures axis == Horizontal ==>
      Offset(axis, width, height, spacing, count - 1).x + width == CanvasSize(axis, width, height, count, spacing).width
    ensures axis == Vertical ==>
      Offset(axis, width, height, spacing, count - 1).y + height == CanvasSize(axis, width, height, count, spacing).height
  {
    assert (count - 1) * (width + spacing) + width == width * count + spacing * (count - 1);
    assert (count - 1) * (height + spacing) + height == height * count + spacing * (count - 1);
  }

  /**
   * With non-negative spacing every cell lies inside the canvas, spans the whole
   * canvas across the layout axis, and is followed by exactly `spacing` pixels
   * before the next cell, so cells never overlap.
   */
  lemma {:induction false} CellsInsideCanvas(axis: Axis, width: nat, height: nat, count: nat, spacing: int, k: nat)
    requires 0 <= spacing && k < count
    ensures var p := Offset(axis, width, height, spacing, k);
            var c := CanvasSize(axis, width, height, count, spacing);
            0 <= p.x && p.x + width <= c.width && 0 <= p.y && p.y + height <= c.height
    ensures k + 1 < count && axis == Horizontal ==>
      Offset(axis, width, height, spacing, k + 1).x - (Offset(axis, width, height, spacing, k).x + width) == spacing
    ensures k + 1 < count && axis == Vertical ==>
      Offset(axis, width, height, spacing, k + 1).y - (Offset(axis, width, height, spacing, k).y + height) == spacing
  {
    if axis == Horizontal {
      CellInStrip(width, spacing, count, k);
    } else {
      CellInStrip(height, spacing, count, k);
    }
  }

  /** Along one axis: the k-th cell of a strip lies inside it and is followed by one gap. */
  lemma CellInStrip(cell: nat, spacing: int, count: nat, k: nat)
    requires 0 <= spacing && k < count
    ensures 0 <= k * (cell + spacing) && k * (cell + spacing) + cell <= Span(count, cell, spacing)
    ensures (k + 1) * (cell + spacing) - (k * (cell + spacing) + cell) == spacing
  {
    var step: nat := cell + spacing;
    var rest: nat := count - 1 - k;
    assert (count - 1) * step == k * step + rest * step;
    assert 0 <= rest * step && 0 <= k * step;
    assert (count - 1) * step == (count - 1) * cell + (count - 1) * spacing;
    assert (count - 1) * cell + cell == cell * count;
    assert (k + 1) * step == k * step + step;
  }
}
