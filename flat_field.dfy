/** The game field as the engine stores it: one row-major array of
    width * height cells, cell (x, y) at index y * width + x. This module
    relates that layout to the row-by-row view used by the board
    specification, for the two ways the engine writes the array: a single
    cell (setPixel) and the row removal of cleanLines (memmove the rows
    above, memset the top row). */
module FlatField {
  import opened EngineTypes
  import opened Board

  /** The index of the first cell of row y, y * width, built by repeated
      addition so that reading a cell of the grid stays linear. */
  function RowStart(y: nat, width: int): int
  {
    if y == 0 then 0 else RowStart(y - 1, width) + width
  }

  lemma {:induction false} RowStartIsProduct(y: nat, width: int)
    ensures RowStart(y, width) == y * width
  {
    if y > 0 {
      RowStartIsProduct(y - 1, width);
      assert (y - 1) * width + width == y * width;
    }
  }

  /** Every row of the grid lies inside the array. */
  lemma RowsInRange(width: int, height: int)
    requires 0 <= width
    ensures forall y: nat :: y < height ==> 0 <= RowStart(y, width) && RowStart(y, width) + width <= width * height
  {
    forall y: nat | y < height
      ensures 0 <= RowStart(y, width) && RowStart(y, width) + width <= width * height
    {
      RowStartIsProduct(y, width);
      MulMonotone(0, y, width);
      MulMonotone(y + 1, height, width);
      assert (y + 1) * width == y * width + width;
      assert height * width == width * height;
    }
  }

  /** The rows of a flat array: row y, column x is cell y * width + x. */
  ghost function GridOf(cells: seq<Pixel>, width: int, height: int): (g: Grid)
    requires 0 <= width && 0 <= height && |cells| == width * height
    ensures IsGrid(g, width, height)
  {
    RowsInRange(width, height);
    seq(height, y requires 0 <= y < height =>
      seq(width, x requires 0 <= x < width => cells[RowStart(y, width) + x]))
  }

  /** Row y, column x of the grid is the cell at index y * width + x. */
  lemma GridOfAt(cells: seq<Pixel>, width: int, height: int, x: int, y: int)
    requires 0 <= width && 0 <= height && |cells| == width * height
    requires InBoard(width, height, x, y)
    ensures 0 <= FlatIndex(x, y, width) < |cells| && GridOf(cells, width, height)[y][x] == cells[FlatIndex(x, y, width)]
  {
    FlatIndexInRange(x, y, width, height);
    RowStartIsProduct(y, width);
  }

  /** The row view loses nothing: two arrays with the same grid are the same
      array, so every statement the model makes about Field() is a
      statement about every cell of the game field. */
  lemma {:induction false} GridOfInjective(a: seq<Pixel>, b: seq<Pixel>, width: int, height: int)
    requires 0 < width && 0 <= height && |a| == width * height && |b| == width * height
    requires GridOf(a, width, height) == GridOf(b, width, height)
    ensures a == b
  {
    forall i | 0 <= i < |a|
      ensures a[i] == b[i]
    {
      IndexCoordinates(i, width, height);
      GridOfAt(a, width, height, i % width, i / width);
      GridOfAt(b, width, height, i % width, i / width);
    }
  }

  /** Writing the cell of (x, y) in the array is SetCell on the rows. */
  lemma GridOfUpdate(cells: seq<Pixel>, width: int, height: int, x: int, y: int, v: Pixel)
    requires 0 <= width && 0 <= height && |cells| == width * height
    requires InBoard(width, height, x, y)
    ensures 0 <= FlatIndex(x, y, width) < |cells|
    ensures GridOf(cells[FlatIndex(x, y, width) := v], width, height) == SetCell(GridOf(cells, width, height), width, height, x, y, v)
  {
    FlatIndexInRange(x, y, width, height);
    var i := FlatIndex(x, y, width);
    var a := GridOf(cells[i := v], width, height);
    var b := SetCell(GridOf(cells, width, height), width, height, x, y, v);
    forall y' | 0 <= y' < height ensures a[y'] == b[y'] {
      forall x' | 0 <= x' < width ensures a[y'][x'] == b[y'][x'] {
        FlatIndexInjective(x', y', x, y, width);
        GridOfAt(cells[i := v], width, height, x', y');
        GridOfAt(cells, width, height, x', y');
      }
    }
  }

  /** The array cleanLines leaves after removing row y: the cells of the
      rows below y, those of the rows above it moved down by one row
      (memmove), and an empty top row (memset). */
  lemma GridOfRemoveRow(cells: seq<Pixel>, width: int, height: int, y: int)
    requires 0 <= width && 0 <= y < height && |cells| == width * height
    ensures 0 <= y * width <= (y + 1) * width <= |cells|
    ensures var after := cells[..y * width] + cells[(y + 1) * width..] + ZeroRow(width);
            |after| == width * height &&
            GridOf(after, width, height) == GridOf(cells, width, height)[..y] + GridOf(cells, width, height)[y + 1..] + [ZeroRow(width)]
  {
    MulMonotone(y + 1, height, width);
    assert (y + 1) * width == y * width + width;
    var after := cells[..y * width] + cells[(y + 1) * width..] + ZeroRow(width);
    var g := GridOf(cells, width, height);
    var a := GridOf(after, width, height);
    var b := g[..y] + g[y + 1..] + [ZeroRow(width)];
    forall y' | 0 <= y' < height ensures a[y'] == b[y'] {
      forall x' | 0 <= x' < width ensures a[y'][x'] == b[y'][x'] {
        RemoveRowCell(cells, width, height, y, x', y');
      }
    }
  }

  lemma RemoveRowCell(cells: seq<Pixel>, width: int, height: int, y: int, x': int, y': int)
    requires 0 <= width && 0 <= y < height && |cells| == width * height
    requires 0 <= x' < width && 0 <= y' < height
    requires (y + 1) * width == y * width + width && (y + 1) * width <= |cells|
    ensures var after := cells[..y * width] + cells[(y + 1) * width..] + ZeroRow(width);
            var g := GridOf(cells, width, height);
            |after| == width * height &&
            GridOf(after, width, height)[y'][x'] == (g[..y] + g[y + 1..] + [ZeroRow(width)])[y'][x']
  {
    var after := cells[..y * width] + cells[(y + 1) * width..] + ZeroRow(width);
    var i := FlatIndex(x', y', width);
    GridOfAt(after, width, height, x', y');
    if y' < y {
      RowBelowRemoved(width, y, x', y');
      GridOfAt(cells, width, height, x', y');
      assert after[i] == cells[i];
    } else if y' < height - 1 {
      RowAboveRemoved(width, height, y, x', y');
      GridOfAt(cells, width, height, x', y' + 1);
      assert after[i] == cells[i + width];
    } else {
      TopRowIndex(width, height, x');
      assert after[i] == 0;
    }
  }

  /** A cell of a row below the removed row y keeps its index. */
  lemma RowBelowRemoved(width: int, y: int, x': int, y': int)
    requires 0 <= x' < width && 0 <= y' < y
    ensures 0 <= FlatIndex(x', y', width) < y * width
  {
    MulMonotone(y' + 1, y, width);
  }

  /** A cell of a row at or above the removed row y takes the cell one row
      higher, which lies inside the array. */
  lemma RowAboveRemoved(width: int, height: int, y: int, x': int, y': int)
    requires 0 <= x' < width && 0 <= y <= y' < height - 1
    ensures y * width <= FlatIndex(x', y', width)
    ensures FlatIndex(x', y', width) + width == FlatIndex(x', y' + 1, width) < width * height
  {
    MulMonotone(y, y', width);
    MulMonotone(y' + 2, height, width);
  }

  /** The cells of the top row are the last width cells of the array. */
  lemma TopRowIndex(width: int, height: int, x': int)
    requires 0 <= x' < width && 0 < height
    ensures width * height - width <= FlatIndex(x', height - 1, width) < width * height
  {
  }

  /** memmove of the cells [from + shift, end) onto [from, end - shift):
      the cells before `from` and the last `shift` cells keep their values. */
  method MoveCellsDown(a: array<Pixel>, from: int, shift: int)
    requires 0 <= from && 0 <= shift && from + shift <= a.Length
    modifies a
    ensures a[..] == old(a[..from]) + old(a[from + shift..]) + old(a[a.Length - shift..])
  {
    var i := from;
    while i < a.Length - shift
      invariant from <= i <= a.Length - shift
      invariant forall k :: 0 <= k < from ==> a[k] == old(a[k])
      invariant forall k :: from <= k < i ==> a[k] == old(a[k + shift])
      invariant forall k :: i <= k < a.Length ==> a[k] == old(a[k])
    {
      a[i] := a[i + shift];
      i := i + 1;
    }
    assert a[..] == old(a[..from]) + old(a[from + shift..]) + old(a[a.Length - shift..]);
  }

  /** memset of the cells [from, end) to 0. */
  method ZeroCellsFrom(a: array<Pixel>, from: int)
    requires 0 <= from <= a.Length
    modifies a
    ensures a[..] == old(a[..from]) + ZeroRow(a.Length - from)
  {
    var j := from;
    while j < a.Length
      invariant from <= j <= a.Length
      invariant forall k :: 0 <= k < from ==> a[k] == old(a[k])
      invariant forall k :: from <= k < j ==> a[k] == 0
    {
      a[j] := 0;
      j := j + 1;
    }
    assert a[..] == old(a[..from]) + ZeroRow(a.Length - from);
  }

  /** The offsets cleanLines works with when it removes row y: row y starts
      at y * width, the top row at (height - 1) * width. */
  lemma RowOffsets(width: int, height: int, y: int)
    requires 0 <= width && 0 <= y < height
    ensures 0 <= y * width && y * width + width == (y + 1) * width
    ensures (y + 1) * width <= width * height
    ensures (height - 1) * width + width == width * height
  {
    MulMonotone(y + 1, height, width);
    assert height * width == width * height;
  }
}
