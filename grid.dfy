/** Index-to-pixel arithmetic of a fixed-width grid, as the calendar renderer's
    helper `getGridPosition` computes it: column `index % cols`, row
    `Math.floor(index / cols)`, then the top-left pixel of that cell. */
module Grid {

  datatype Point = Point(x: int, y: int)

  /** The integer quotient that JavaScript's `%` pairs with: `a / b` truncated
      toward zero. */
  function TruncDiv(a: int, b: int): int
    requires b > 0
  {
    if a >= 0 then a / b else -((-a) / b)
  }

  /** JavaScript's `%` on integers (Number::remainder): `a - b * q` for the
      truncated quotient `q`, so the remainder takes the sign of the dividend
      (unlike Dafny's `%`, which is never negative). Only positive divisors
      occur here. */
  function JsRem(a: int, b: int): (r: int)
    requires b > 0
    ensures -b < r < b
    ensures a >= 0 ==> r >= 0
    ensures a <= 0 ==> r <= 0
    ensures a == TruncDiv(a, b) * b + r
  {
    if a >= 0 then a % b else -((-a) % b)
  }

  /** Column of grid cell `index` in a grid `cols` wide. */
  function Column(index: int, cols: int): int
    requires cols > 0
  {
    JsRem(index, cols)
  }

  /** Row of grid cell `index`: `Math.floor(index / cols)`, which for a
      positive divisor is Dafny's `/`. */
  function Row(index: int, cols: int): int
    requires cols > 0
  {
    index / cols
  }

  /** The top-left pixel of cell `index` of a grid whose first cell is at
      (startX, startY). */
  function GridPosition(index: int, startX: int, startY: int, cellWidth: int, cellHeight: int, cols: int): (p: Point)
    requires cols > 0
    ensures index >= 0 && cellWidth >= 0 ==> startX <= p.x <= startX + (cols - 1) * cellWidth
    ensures index >= 0 && cellHeight >= 0 ==> startY <= p.y
    ensures 0 <= index < cols ==> p == Point(startX + index * cellWidth, startY)
  {
    if index >= 0 then
      GridDecomposition(index, cols);
      ScaleMonotone(Column(index, cols), cols - 1, cellWidth);
      ScaleMonotone(0, Row(index, cols), cellHeight);
      ScaleMonotone(1, Row(index, cols), cols);
      Point(startX + Column(index, cols) * cellWidth, startY + Row(index, cols) * cellHeight)
    else
      Point(startX + Column(index, cols) * cellWidth, startY + Row(index, cols) * cellHeight)
  }

  /** For a non-negative index, the column lies in [0, cols), the row is
      non-negative, and (row, col) is the row-major decomposition of the index. */
  lemma GridDecomposition(index: int, cols: int)
    requires index >= 0 && cols > 0
    ensures 0 <= Column(index, cols) < cols && Row(index, cols) >= 0
    ensures Row(index, cols) * cols + Column(index, cols) == index
  {
  }

  /** Two indices with the same (row, col) are the same index. */
  lemma {:induction false} CellDeterminesIndex(i: int, j: int, cols: int)
    requires i >= 0 && j >= 0 && cols > 0
    requires Column(i, cols) == Column(j, cols) && Row(i, cols) == Row(j, cols)
    ensures i == j
  {
    GridDecomposition(i, cols);
    GridDecomposition(j, cols);
  }

  /** With positive cell sizes, distinct non-negative indices get distinct
      pixel positions: no two cells are drawn at the same place. */
  lemma {:induction false} GridPositionInjective(i: int, j: int, startX: int, startY: int, cellWidth: int, cellHeight: int, cols: int)
    requires i >= 0 && j >= 0 && i != j
    requires cols > 0 && cellWidth > 0 && cellHeight > 0
    ensures GridPosition(i, startX, startY, cellWidth, cellHeight, cols)
         != GridPosition(j, startX, startY, cellWidth, cellHeight, cols)
  {
    var ci, cj := Column(i, cols), Column(j, cols);
    var ri, rj := Row(i, cols), Row(j, cols);
    if ci != cj {
      ScaleInjective(ci, cj, cellWidth);
    } else if ri != rj {
      ScaleInjective(ri, rj, cellHeight);
    } else {
      CellDeterminesIndex(i, j, cols);
    }
  }

  lemma ScaleInjective(a: int, b: int, k: int)
    requires a != b && k > 0
    ensures a * k != b * k
  {
    if a < b {
      assert a * k < b * k by { assert (b - a) * k > 0; }
    } else {
      assert b * k < a * k by { assert (a - b) * k > 0; }
    }
  }

  lemma ScaleMonotone(a: int, b: int, k: int)
    ensures a <= b && k >= 0 ==> a * k <= b * k
  {
    if a <= b && k >= 0 {
      assert (b - a) * k >= 0;
    }
  }
}
