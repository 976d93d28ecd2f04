/** Grid cells and the king-move (Chebyshev) distance between them. */
module Grid {

  /** A cell of the soccer field. The counter tables use 0-based cells;
      positions reported by the environment are 1-based. */
  datatype Cell = Cell(row: int, col: int)

  function Abs(x: int): (r: nat)
    ensures r == x || r == -x
  {
    if x < 0 then -x else x
  }

  /** The number of king moves between two cells. */
  function Chebyshev(a: Cell, b: Cell): nat
  {
    var dr := Abs(a.row - b.row);
    var dc := Abs(a.col - b.col);
    if dr >= dc then dr else dc
  }

  /** The cell lies in [0, rows) x [0, cols). */
  predicate InGrid(x: Cell, rows: int, cols: int)
  {
    0 <= x.row < rows && 0 <= x.col < cols
  }

}
