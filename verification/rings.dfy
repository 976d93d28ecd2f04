/** The k-cyclic neighbourhood: the hollow squares of cells at Chebyshev
    distance 1, 2, ..., k around a centre, clipped to the field. */
module Rings {
  import opened Grid
  import opened Seqs

  /** A side of a ring is a run of cells along a row (Horizontal) or along a column (Vertical). */
  datatype Axis = Horizontal | Vertical

  /** The coordinate a side keeps fixed. */
  function Fixed(axis: Axis, x: Cell): int
  {
    if axis == Horizontal then x.row else x.col
  }

  /** The coordinate a side runs along. */
  function Along(axis: Axis, x: Cell): int
  {
    if axis == Horizontal then x.col else x.row
  }

  function At(axis: Axis, fixed: int, i: int): (x: Cell)
    ensures Fixed(axis, x) == fixed && Along(axis, x) == i
  {
    if axis == Horizontal then Cell(fixed, i) else Cell(i, fixed)
  }

  /** The loop over one side of a ring: the cells At(axis, fixed, i) for
      i = lo, lo + 1, ..., hi, in that order, keeping those on the field. */
  function Side(rows: int, cols: int, axis: Axis, fixed: int, lo: int, hi: int): (s: seq<Cell>)
    decreases hi - lo
  {
    if lo > hi then []
    else
      var x := At(axis, fixed, lo);
      (if InGrid(x, rows, cols) then [x] else []) + Side(rows, cols, axis, fixed, lo + 1, hi)
  }

  /** A side holds exactly the on-field cells of its run. */
  lemma {:induction false} SideMembers(rows: int, cols: int, axis: Axis, fixed: int, lo: int, hi: int, x: Cell)
    ensures x in Side(rows, cols, axis, fixed, lo, hi)
      <==> InGrid(x, rows, cols) && Fixed(axis, x) == fixed && lo <= Along(axis, x) <= hi
    decreases hi - lo
  {
    if lo <= hi {
      SideMembers(rows, cols, axis, fixed, lo + 1, hi, x);
    }
  }

  /** Every cell of a side is on the field, on the side's line and within its run. */
  lemma SideBounds(rows: int, cols: int, axis: Axis, fixed: int, lo: int, hi: int)
    ensures forall x :: x in Side(rows, cols, axis, fixed, lo, hi) ==>
      InGrid(x, rows, cols) && Fixed(axis, x) == fixed && lo <= Along(axis, x) <= hi
  {
    forall x | x in Side(rows, cols, axis, fixed, lo, hi)
      ensures InGrid(x, rows, cols) && Fixed(axis, x) == fixed && lo <= Along(axis, x) <= hi
    {
      SideMembers(rows, cols, axis, fixed, lo, hi, x);
    }
  }

  lemma {:induction false} SideDistinct(rows: int, cols: int, axis: Axis, fixed: int, lo: int, hi: int)
    ensures Distinct(Side(rows, cols, axis, fixed, lo, hi))
    decreases hi - lo
  {
    if lo <= hi {
      var x := At(axis, fixed, lo);
      var head: seq<Cell> := if InGrid(x, rows, cols) then [x] else [];
      SideDistinct(rows, cols, axis, fixed, lo + 1, hi);
      SideBounds(rows, cols, axis, fixed, lo + 1, hi);
      DistinctConcat(head, Side(rows, cols, axis, fixed, lo + 1, hi));
    }
  }

  /** When both ends of a run are on the field, nothing is clipped: the side
      has one cell per step of the run. */
  lemma {:induction false} SideLength(rows: int, cols: int, axis: Axis, fixed: int, lo: int, hi: int)
    requires lo <= hi + 1
    requires lo <= hi ==> InGrid(At(axis, fixed, lo), rows, cols) && InGrid(At(axis, fixed, hi), rows, cols)
    ensures |Side(rows, cols, axis, fixed, lo, hi)| == hi - lo + 1
    decreases hi - lo
  {
    if lo <= hi {
      SideLength(rows, cols, axis, fixed, lo + 1, hi);
    }
  }

  /** The ring of radius ki around (r, c), as SelfOnlyCounterModule builds it: the
      upper row, the lower row, then the left and right columns without
      their corners, each clipped to the field. */
  function Ring(rows: int, cols: int, r: int, c: int, ki: int): seq<Cell>
  {
    Side(rows, cols, Horizontal, r - ki, c - ki, c + ki)
    + Side(rows, cols, Horizontal, r + ki, c - ki, c + ki)
    + Side(rows, cols, Vertical, c - ki, r - ki + 1, r + ki - 1)
    + Side(rows, cols, Vertical, c + ki, r - ki + 1, r + ki - 1)
  }

  /** GetKCyclicNeighbors: the rings of radius 1, 2, ..., k, innermost first.
      Every cell returned is on the field, at distance 1..k from the centre
      (so the centre itself never appears). */
  function KCyclicNeighbors(rows: int, cols: int, r: int, c: int, k: int): (s: seq<Cell>)
    ensures forall x :: x in s ==> InGrid(x, rows, cols) && 1 <= Chebyshev(x, Cell(r, c)) <= k
    decreases k
  {
    if k < 1 then []
    else
      RingBounds(rows, cols, r, c, k);
      KCyclicNeighbors(rows, cols, r, c, k - 1) + Ring(rows, cols, r, c, k)
  }

  /** A cell is at distance exactly ki (>= 1) from (r, c) when it lies on the
      upper or lower row of the square, or on its left or right column strictly
      between those rows. */
  lemma OnSquare(x: Cell, r: int, c: int, ki: int)
    requires ki >= 1
    ensures Chebyshev(x, Cell(r, c)) == ki
      <==> (|| ((x.row == r - ki || x.row == r + ki) && c - ki <= x.col <= c + ki)
            || ((x.col == c - ki || x.col == c + ki) && r - ki + 1 <= x.row <= r + ki - 1))
  {
  }

  /** A ring holds exactly the on-field cells at distance ki. */
  lemma RingMembers(rows: int, cols: int, r: int, c: int, ki: int, x: Cell)
    requires ki >= 1
    ensures x in Ring(rows, cols, r, c, ki) <==> InGrid(x, rows, cols) && Chebyshev(x, Cell(r, c)) == ki
  {
    var up := Side(rows, cols, Horizontal, r - ki, c - ki, c + ki);
    var down := Side(rows, cols, Horizontal, r + ki, c - ki, c + ki);
    var left := Side(rows, cols, Vertical, c - ki, r - ki + 1, r + ki - 1);
    var right := Side(rows, cols, Vertical, c + ki, r - ki + 1, r + ki - 1);
    assert Ring(rows, cols, r, c, ki) == up + down + left + right;
    InConcat4(up, down, left, right, x);
    assert x in up <==> InGrid(x, rows, cols) && x.row == r - ki && c - ki <= x.col <= c + ki by {
      SideMembers(rows, cols, Horizontal, r - ki, c - ki, c + ki, x);
    }
    assert x in down <==> InGrid(x, rows, cols) && x.row == r + ki && c - ki <= x.col <= c + ki by {
      SideMembers(rows, cols, Horizontal, r + ki, c - ki, c + ki, x);
    }
    assert x in left <==> InGrid(x, rows, cols) && x.col == c - ki && r - ki + 1 <= x.row <= r + ki - 1 by {
      SideMembers(rows, cols, Vertical, c - ki, r - ki + 1, r + ki - 1, x);
    }
    assert x in right <==> InGrid(x, rows, cols) && x.col == c + ki && r - ki + 1 <= x.row <= r + ki - 1 by {
      SideMembers(rows, cols, Vertical, c + ki, r - ki + 1, r + ki - 1, x);
    }
    OnSquare(x, r, c, ki);
  }

  /** Every cell of a ring is on the field at distance exactly ki. */
  lemma RingBounds(rows: int, cols: int, r: int, c: int, ki: int)
    requires ki >= 1
    ensures forall x :: x in Ring(rows, cols, r, c, ki) ==> InGrid(x, rows, cols) && Chebyshev(x, Cell(r, c)) == ki
  {
    forall x | x in Ring(rows, cols, r, c, ki)
      ensures InGrid(x, rows, cols) && Chebyshev(x, Cell(r, c)) == ki
    {
      RingMembers(rows, cols, r, c, ki, x);
    }
  }

  /** The four sides of a ring do not overlap, so no cell appears twice in a ring. */
  lemma RingDistinct(rows: int, cols: int, r: int, c: int, ki: int)
    requires ki >= 1
    ensures Distinct(Ring(rows, cols, r, c, ki))
  {
    var up := Side(rows, cols, Horizontal, r - ki, c - ki, c + ki);
    var down := Side(rows, cols, Horizontal, r + ki, c - ki, c + ki);
    var left := Side(rows, cols, Vertical, c - ki, r - ki + 1, r + ki - 1);
    var right := Side(rows, cols, Vertical, c + ki, r - ki + 1, r + ki - 1);
    SideDistinct(rows, cols, Horizontal, r - ki, c - ki, c + ki);
    SideDistinct(rows, cols, Horizontal, r + ki, c - ki, c + ki);
    SideDistinct(rows, cols, Vertical, c - ki, r - ki + 1, r + ki - 1);
    SideDistinct(rows, cols, Vertical, c + ki, r - ki + 1, r + ki - 1);
    ParallelApart(rows, cols, Horizontal, r - ki, c - ki, c + ki, r + ki, c - ki, c + ki);
    DistinctConcat(up, down);
    CrossApart(rows, cols, r - ki, c - ki, c + ki, c - ki, r - ki + 1, r + ki - 1);
    CrossApart(rows, cols, r + ki, c - ki, c + ki, c - ki, r - ki + 1, r + ki - 1);
    DistinctConcat(up + down, left);
    CrossApart(rows, cols, r - ki, c - ki, c + ki, c + ki, r - ki + 1, r + ki - 1);
    CrossApart(rows, cols, r + ki, c - ki, c + ki, c + ki, r - ki + 1, r + ki - 1);
    ParallelApart(rows, cols, Vertical, c - ki, r - ki + 1, r + ki - 1, c + ki, r - ki + 1, r + ki - 1);
    DistinctConcat(up + down + left, right);
  }

  /** Two sides along the same axis on different lines share no cell. */
  lemma ParallelApart(rows: int, cols: int, axis: Axis, f1: int, lo1: int, hi1: int, f2: int, lo2: int, hi2: int)
    requires f1 != f2
    ensures forall x :: x in Side(rows, cols, axis, f1, lo1, hi1) ==> x !in Side(rows, cols, axis, f2, lo2, hi2)
  {
    forall x | x in Side(rows, cols, axis, f1, lo1, hi1)
      ensures x !in Side(rows, cols, axis, f2, lo2, hi2)
    {
      SideMembers(rows, cols, axis, f1, lo1, hi1, x);
      SideMembers(rows, cols, axis, f2, lo2, hi2, x);
    }
  }

  /** A row side and a column side share no cell when the row lies outside
      the column side's run. */
  lemma CrossApart(rows: int, cols: int, row: int, lo1: int, hi1: int, col: int, lo2: int, hi2: int)
    requires row < lo2 || hi2 < row
    ensures forall x :: x in Side(rows, cols, Horizontal, row, lo1, hi1) ==> x !in Side(rows, cols, Vertical, col, lo2, hi2)
  {
    forall x | x in Side(rows, cols, Horizontal, row, lo1, hi1)
      ensures x !in Side(rows, cols, Vertical, col, lo2, hi2)
    {
      SideMembers(rows, cols, Horizontal, row, lo1, hi1, x);
      SideMembers(rows, cols, Vertical, col, lo2, hi2, x);
    }
  }

  /** A ring that lies wholly on the field has 8 * ki cells. */
  lemma RingFullSize(rows: int, cols: int, r: int, c: int, ki: int)
    requires ki >= 1
    requires 0 <= r - ki && r + ki < rows && 0 <= c - ki && c + ki < cols
    ensures |Ring(rows, cols, r, c, ki)| == 8 * ki
  {
    var up := Side(rows, cols, Horizontal, r - ki, c - ki, c + ki);
    SideLength(rows, cols, Horizontal, r - ki, c - ki, c + ki);
    assert |up| == 2 * ki + 1;
    var down := Side(rows, cols, Horizontal, r + ki, c - ki, c + ki);
    SideLength(rows, cols, Horizontal, r + ki, c - ki, c + ki);
    assert |down| == 2 * ki + 1;
    var left := Side(rows, cols, Vertical, c - ki, r - ki + 1, r + ki - 1);
    SideLength(rows, cols, Vertical, c - ki, r - ki + 1, r + ki - 1);
    assert |left| == 2 * ki - 1;
    var right := Side(rows, cols, Vertical, c + ki, r - ki + 1, r + ki - 1);
    SideLength(rows, cols, Vertical, c + ki, r - ki + 1, r + ki - 1);
    assert |right| == 2 * ki - 1;
  }

  /** Rings of different radii share no cell. */
  lemma RingsDisjoint(rows: int, cols: int, r: int, c: int, ki: int, kj: int, x: Cell)
    requires 1 <= ki && 1 <= kj && ki != kj
    ensures !(x in Ring(rows, cols, r, c, ki) && x in Ring(rows, cols, r, c, kj))
  {
    RingMembers(rows, cols, r, c, ki, x);
    RingMembers(rows, cols, r, c, kj, x);
  }

  /** The neighbourhood holds exactly the on-field cells at distance 1..k. */
  lemma {:induction false} NeighborsMembers(rows: int, cols: int, r: int, c: int, k: int, x: Cell)
    ensures x in KCyclicNeighbors(rows, cols, r, c, k)
      <==> InGrid(x, rows, cols) && 1 <= Chebyshev(x, Cell(r, c)) <= k
    decreases k
  {
    if k >= 1 {
      NeighborsMembers(rows, cols, r, c, k - 1, x);
      RingMembers(rows, cols, r, c, k, x);
    }
  }

  /** No cell appears twice in the neighbourhood, so together with
      NeighborsMembers every on-field cell at distance 1..k appears exactly once. */
  lemma {:induction false} NeighborsDistinct(rows: int, cols: int, r: int, c: int, k: int)
    ensures Distinct(KCyclicNeighbors(rows, cols, r, c, k))
    decreases k
  {
    if k >= 1 {
      NeighborsDistinct(rows, cols, r, c, k - 1);
      RingDistinct(rows, cols, r, c, k);
      RingBounds(rows, cols, r, c, k);
      DistinctConcat(KCyclicNeighbors(rows, cols, r, c, k - 1), Ring(rows, cols, r, c, k));
    }
  }

  /** A neighbourhood that lies wholly on the field has 4 * k * (k + 1) cells. */
  lemma {:induction false} NeighborsFullSize(rows: int, cols: int, r: int, c: int, k: int)
    requires k >= 0
    requires 0 <= r - k && r + k < rows && 0 <= c - k && c + k < cols
    ensures |KCyclicNeighbors(rows, cols, r, c, k)| == 4 * k * (k + 1)
    decreases k
  {
    if k >= 1 {
      var inner := KCyclicNeighbors(rows, cols, r, c, k - 1);
      var ring := Ring(rows, cols, r, c, k);
      assert KCyclicNeighbors(rows, cols, r, c, k) == inner + ring;
      NeighborsFullSize(rows, cols, r, c, k - 1);
      RingFullSize(rows, cols, r, c, k);
      assert |inner| == 4 * (k - 1) * k;
      assert |ring| == 8 * k;
      RingCountStep(k);
    }
  }

  lemma RingCountStep(k: int)
    ensures 4 * (k - 1) * k + 8 * k == 4 * k * (k + 1)
  {
    assert (k - 1) * k == k * k - k;
    assert k * (k + 1) == k * k + k;
  }

  /** A side grows at its far end: the run up to hi is the run up to hi - 1
      followed by the cell at hi when that cell is on the field. */
  lemma {:induction false} SideSnoc(rows: int, cols: int, axis: Axis, fixed: int, lo: int, hi: int)
    requires lo <= hi
    ensures Side(rows, cols, axis, fixed, lo, hi)
      == Side(rows, cols, axis, fixed, lo, hi - 1)
         + (if InGrid(At(axis, fixed, hi), rows, cols) then [At(axis, fixed, hi)] else [])
    decreases hi - lo
  {
    if lo < hi {
      SideSnoc(rows, cols, axis, fixed, lo + 1, hi);
      var x := At(axis, fixed, lo);
      var head: seq<Cell> := if InGrid(x, rows, cols) then [x] else [];
      var y := At(axis, fixed, hi);
      var tail: seq<Cell> := if InGrid(y, rows, cols) then [y] else [];
      assert Side(rows, cols, axis, fixed, lo, hi) == head + (Side(rows, cols, axis, fixed, lo + 1, hi - 1) + tail);
      assert Side(rows, cols, axis, fixed, lo, hi - 1) == head + Side(rows, cols, axis, fixed, lo + 1, hi - 1);
    }
  }

  /** One side loop of SelfOnlyCounterModule: steps i from lo to hi and appends each
      on-field cell At(axis, fixed, i) to acc. */
  method AppendSide(acc: seq<Cell>, rows: int, cols: int, axis: Axis, fixed: int, lo: int, hi: int) returns (res: seq<Cell>)
    ensures res == acc + Side(rows, cols, axis, fixed, lo, hi)
  {
    res := acc;
    var i := lo;
    while i <= hi
      invariant i == lo || lo <= i <= hi + 1
      invariant res == acc + Side(rows, cols, axis, fixed, lo, i - 1)
    {
      var x := At(axis, fixed, i);
      SideSnoc(rows, cols, axis, fixed, lo, i);
      if 0 <= x.row < rows && 0 <= x.col < cols {
        res := res + [x];
      }
      i := i + 1;
    }
  }

  /** The four side loops of one radius: upper, lower, left, right. */
  method AppendRing(acc: seq<Cell>, rows: int, cols: int, r: int, c: int, ki: int) returns (res: seq<Cell>)
    ensures res == acc + Ring(rows, cols, r, c, ki)
  {
    ghost var up := Side(rows, cols, Horizontal, r - ki, c - ki, c + ki);
    ghost var down := Side(rows, cols, Horizontal, r + ki, c - ki, c + ki);
    ghost var left := Side(rows, cols, Vertical, c - ki, r - ki + 1, r + ki - 1);
    ghost var right := Side(rows, cols, Vertical, c + ki, r - ki + 1, r + ki - 1);
    var r1 := AppendSide(acc, rows, cols, Horizontal, r - ki, c - ki, c + ki);
    var r2 := AppendSide(r1, rows, cols, Horizontal, r + ki, c - ki, c + ki);
    var r3 := AppendSide(r2, rows, cols, Vertical, c - ki, r - ki + 1, r + ki - 1);
    res := AppendSide(r3, rows, cols, Vertical, c + ki, r - ki + 1, r + ki - 1);
    ConcatChain(acc, up, down, left, right, r1, r2, r3, res);
  }

  /** GetKCyclicNeighbors as SelfOnlyCounterModule writes it: for each radius 1..k,
      the upper, lower, left and right side loops, appending to one list. It
      returns exactly the neighbourhood KCyclicNeighbors describes. */
  method GetKCyclicNeighbors(rows: int, cols: int, r: int, c: int, k: int) returns (result: seq<Cell>)
    ensures result == KCyclicNeighbors(rows, cols, r, c, k)
  {
    result := [];
    var ki := 1;
    while ki <= k
      invariant ki == 1 || 1 <= ki <= k + 1
      invariant result == KCyclicNeighbors(rows, cols, r, c, ki - 1)
    {
      result := AppendRing(result, rows, cols, r, c, ki);
      ki := ki + 1;
    }
  }

}
