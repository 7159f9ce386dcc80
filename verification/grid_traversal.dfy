/** Balanced grid rows, and moving between cells with the arrow keys. */
module GridTraversal {
  import opened Bytes

  // ----- Rows -----

  function RowCount(n: int): nat {
    if n <= 0 then 0 else if n <= 2 then 1 else (n + 2) / 3
  }

  /** Nodes per row: bigger rows first. */
  function GetGridRows(n: int): seq<nat> {
    if n <= 0 then []
    else
      var rows := RowCount(n);
      var base, extra := n / rows, n % rows;
      seq(rows, i => base + if i < extra then 1 else 0)
  }

  /** Flat index of the first cell of row `r`. */
  function RowStart(rows: seq<nat>, r: nat): nat
    requires r <= |rows|
  {
    if r == 0 then 0 else RowStart(rows, r - 1) + rows[r - 1]
  }

  lemma {:induction false} MultipleGrows(a: int, d: int)
    requires d > 0
    ensures a >= 1 ==> a * d >= d
    ensures a <= -1 ==> a * d <= -d
  {
  }

  lemma {:induction false} QuotientIs(n: int, d: int, q: int, r: int)
    requires n == q * d + r && 0 <= r < d
    ensures n / d == q && n % d == r
  {
    var k := n / d;
    MultipleGrows(k - q, d);
    assert (k - q) * d == r - n % d;
  }

  /** The rows are full, or two wide with the first few one wider; a single row of one or two stands alone. */
  lemma {:induction false} RowShape(n: int)
    requires n > 0
    ensures var rows := RowCount(n);
            var base, extra := n / rows, n % rows;
            && rows > 0 && base * rows + extra == n && 0 <= extra < rows
            && 1 <= base && base + (if extra > 0 then 1 else 0) <= 3
  {
    var rows := RowCount(n);
    if n <= 2 {
      QuotientIs(n, 1, n, 0);
    } else if n == 3 * rows {
      QuotientIs(n, rows, 3, 0);
    } else {
      QuotientIs(n, rows, 2, n - 2 * rows);
    }
  }

  lemma {:induction false} StartOfRow(n: int, r: nat)
    requires n > 0 && r <= |GetGridRows(n)|
    ensures var rows := RowCount(n);
            RowStart(GetGridRows(n), r) == (n / rows) * r + if r < n % rows then r else n % rows
  {
    if r > 0 {
      StartOfRow(n, r - 1);
      RowShape(n);
      OneMore(n / RowCount(n), r);
    }
  }

  lemma {:induction false} OneMore(width: int, r: int)
    ensures width * r == width * (r - 1) + width
  {
  }

  /** The rows hold all `n` nodes, one to three in each, sizes differing by at most one, wider rows first,
      in as few rows as three to a row allows. */
  lemma {:induction false} RowsAreBalanced(n: int)
    ensures var rows := GetGridRows(n);
            && RowStart(rows, |rows|) == (if n <= 0 then 0 else n)
            && (forall r :: 0 <= r < |rows| ==> 1 <= rows[r] <= 3)
            && (forall q, r :: 0 <= q < r < |rows| ==> rows[r] <= rows[q] <= rows[r] + 1)
            && (n > 0 ==> 3 * (|rows| - 1) < n <= 3 * |rows|)
  {
    if n > 0 {
      RowShape(n);
      StartOfRow(n, RowCount(n));
    }
  }

  // ----- Arrows -----

  datatype Direction = Left | Right | Up | Down

  /** Where the search for the cell stopped. */
  datatype Cell = Cell(row: nat, col: nat, start: nat)

  /** Looking for the row that holds `index`; past the last row the first row's numbers are kept. */
  function Locate(rows: seq<nat>, index: nat, r: nat, acc: nat): (c: Cell)
    requires r <= |rows| && acc <= index
    ensures (r <= c.row < |rows| && c.col < rows[c.row] && c.start + c.col == index) || (c.row == 0 && c.col == 0)
    decreases |rows| - r
  {
    if r == |rows| then Cell(0, 0, acc)
    else if index < acc + rows[r] then Cell(r, index - acc, acc)
    else Locate(rows, index, r + 1, acc + rows[r])
  }

  function Min(a: int, b: int): int {
    if a <= b then a else b
  }

  /** The column before or after `col` in a row of `len`, around the ends; a row of one has nowhere to go. */
  function Before(col: int, len: int): int {
    if col == 0 then len - 1 else col - 1
  }

  function After(col: int, len: int): int {
    if col == len - 1 then 0 else col + 1
  }

  function Step(c: Cell, d: Direction, rows: seq<int>): int
    requires c.row < |rows|
  {
    match d
    case Left => c.start + Before(c.col, rows[c.row])
    case Right => c.start + After(c.col, rows[c.row])
    case Up => if c.row == 0 then c.start + c.col else c.start - rows[c.row - 1] + Min(c.col, rows[c.row - 1] - 1)
    case Down =>
      if c.row == |rows| - 1 then c.start + c.col else c.start + rows[c.row] + Min(c.col, rows[c.row + 1] - 1)
  }

  /** The cell an arrow leads to; past the last row, and for a row of one sideways, it stays put. */
  function ArrowTarget(index: nat, d: Direction, rows: seq<nat>): int {
    if rows == [] then index
    else
      var c := Locate(rows, index, 0, 0);
      if (d == Left || d == Right) && rows[c.row] <= 1 then index
      else if d == Up && c.row == 0 then index
      else if d == Down && c.row == |rows| - 1 then index
      else Step(c, d, rows)
  }

  lemma {:induction false} WrapAround(col: int, len: int)
    requires 0 <= col < len && len > 1
    ensures (col - 1 + len) % len == Before(col, len) && (col + 1) % len == After(col, len)
  {
    if col > 0 {
      QuotientIs(col - 1 + len, len, 1, col - 1);
    }
  }

  method ArrowTargetIndex(currentIndex: nat, direction: Direction, rows: seq<nat>) returns (target: int)
    ensures target == ArrowTarget(currentIndex, direction, rows)
  {
    if |rows| == 0 {
      return currentIndex;
    }
    var acc: nat, rowIdx: nat, col: nat := 0, 0, 0;
    var r := 0;
    while r < |rows|
      invariant r <= |rows| && acc <= currentIndex
      invariant rowIdx == 0 && col == 0
      invariant Locate(rows, currentIndex, r, acc) == Locate(rows, currentIndex, 0, 0)
    {
      if currentIndex < acc + rows[r] {
        rowIdx, col := r, currentIndex - acc;
        break;
      }
      acc := acc + rows[r];
      r := r + 1;
    }
    assert Locate(rows, currentIndex, 0, 0) == Cell(rowIdx, col, acc);
    var rowLen: int := rows[rowIdx];
    if direction == Left {
      if rowLen <= 1 {
        return currentIndex;
      }
      WrapAround(col, rowLen);
      return acc + (col - 1 + rowLen) % rowLen;
    }
    if direction == Right {
      if rowLen <= 1 {
        return currentIndex;
      }
      WrapAround(col, rowLen);
      return acc + (col + 1) % rowLen;
    }
    if direction == Up {
      if rowIdx == 0 {
        return currentIndex;
      }
      var prevRowLen: int := rows[rowIdx - 1];
      var prevRowStart := acc - rows[rowIdx - 1];
      return prevRowStart + Min(col, prevRowLen - 1);
    }
    if rowIdx >= |rows| - 1 {
      return currentIndex;
    }
    var nextRowLen: int := rows[rowIdx + 1];
    var nextRowStart := acc + rowLen;
    return nextRowStart + Min(col, nextRowLen - 1);
  }

  // ----- The cells of a grid -----

  /** Rows that are all occupied. */
  ghost predicate Grid(rows: seq<nat>) {
    forall r :: 0 <= r < |rows| ==> rows[r] >= 1
  }

  lemma {:induction false} LocateFrom(rows: seq<nat>, index: nat, r: nat, row: nat)
    requires r <= row < |rows| && RowStart(rows, r) <= RowStart(rows, row) <= index < RowStart(rows, row) + rows[row]
    ensures Locate(rows, index, r, RowStart(rows, r)) == Cell(row, index - RowStart(rows, row), RowStart(rows, row))
    decreases row - r
  {
    if r < row {
      StartsAscend(rows, r + 1, row);
      LocateFrom(rows, index, r + 1, row);
    }
  }

  lemma {:induction false} StartsAscend(rows: seq<nat>, q: nat, r: nat)
    requires q <= r <= |rows|
    ensures RowStart(rows, q) <= RowStart(rows, r)
    decreases r
  {
    if q < r {
      StartsAscend(rows, q, r - 1);
    }
  }

  /** The cell at row `r`, column `c` has index `RowStart(rows, r) + c`, and is found there. */
  lemma {:induction false} LocateCell(rows: seq<nat>, r: nat, c: nat)
    requires r < |rows| && c < rows[r]
    ensures Locate(rows, RowStart(rows, r) + c, 0, 0) == Cell(r, c, RowStart(rows, r))
  {
    StartsAscend(rows, 0, r);
    LocateFrom(rows, RowStart(rows, r) + c, 0, r);
  }

  /** Every index below the total is such a cell. */
  lemma {:induction false} IndexIsCell(rows: seq<nat>, n: nat, index: nat) returns (r: nat, c: nat)
    requires n <= |rows| && index < RowStart(rows, n)
    ensures r < n && c < rows[r] && index == RowStart(rows, r) + c
  {
    if index >= RowStart(rows, n - 1) {
      return n - 1, index - RowStart(rows, n - 1);
    }
    r, c := IndexIsCell(rows, n - 1, index);
  }

  function At(rows: seq<nat>, r: nat, c: nat): nat
    requires r <= |rows|
  {
    RowStart(rows, r) + c
  }

  /** The neighbouring cell in a direction: around the row's ends sideways, into the same column or the
      last one above and below, and nowhere off the top and bottom. */
  function Neighbour(rows: seq<nat>, r: nat, c: nat, d: Direction): (cell: (nat, nat))
    requires Grid(rows) && r < |rows| && c < rows[r]
    ensures cell.0 < |rows| && cell.1 < rows[cell.0]
  {
    match d
    case Left => (r, if c == 0 then rows[r] - 1 else c - 1)
    case Right => (r, if c == rows[r] - 1 then 0 else c + 1)
    case Up => if r == 0 then (r, c) else (r - 1, if c < rows[r - 1] then c else rows[r - 1] - 1)
    case Down => if r == |rows| - 1 then (r, c) else (r + 1, if c < rows[r + 1] then c else rows[r + 1] - 1)
  }

  /** The flat index computed is that of the neighbouring cell. */
  lemma {:induction false} ArrowCells(rows: seq<nat>, r: nat, c: nat, d: Direction)
    requires Grid(rows) && r < |rows| && c < rows[r]
    ensures var (q, b) := Neighbour(rows, r, c, d); ArrowTarget(At(rows, r, c), d, rows) == At(rows, q, b)
  {
    LocateCell(rows, r, c);
  }

  /** An index past the last cell is taken for column 0 of a first row that starts past the last cell. */
  lemma {:induction false} PastTheEnd(rows: seq<nat>, index: nat, d: Direction)
    requires Grid(rows) && rows != [] && index >= RowStart(rows, |rows|)
    ensures var total := RowStart(rows, |rows|);
            ArrowTarget(index, d, rows) ==
              match d
              case Left => if rows[0] == 1 then index else total + rows[0] - 1
              case Right => if rows[0] == 1 then index else total + 1
              case Up => index
              case Down => if |rows| == 1 then index else total + rows[0]
  {
    LocateNowhere(rows, index, 0);
  }

  lemma {:induction false} LocateNowhere(rows: seq<nat>, index: nat, r: nat)
    requires r <= |rows| && index >= RowStart(rows, |rows|)
    ensures RowStart(rows, r) <= index
    ensures Locate(rows, index, r, RowStart(rows, r)) == Cell(0, 0, RowStart(rows, |rows|))
    decreases |rows| - r
  {
    StartsAscend(rows, r, |rows|);
    if r < |rows| {
      StartsAscend(rows, r + 1, |rows|);
      LocateNowhere(rows, index, r + 1);
    }
  }

  lemma {:induction false} NextStart(rows: seq<nat>, r: nat)
    requires r < |rows|
    ensures RowStart(rows, r + 1) == RowStart(rows, r) + rows[r]
  {
  }

  lemma {:induction false} CellInRange(rows: seq<nat>, r: nat, c: nat)
    requires r < |rows| && c < rows[r]
    ensures At(rows, r, c) < RowStart(rows, |rows|)
  {
    assert RowStart(rows, r + 1) == RowStart(rows, r) + rows[r];
    StartsAscend(rows, r + 1, |rows|);
  }

  lemma {:induction false} GridRowsAreGrid(n: int)
    ensures Grid(GetGridRows(n)) && RowStart(GetGridRows(n), |GetGridRows(n)|) == if n <= 0 then 0 else n
    ensures var rows := GetGridRows(n); forall r :: 0 < r < |rows| ==> rows[r] <= rows[r - 1]
  {
    RowsAreBalanced(n);
  }

  /** Every arrow stays on the grid. */
  lemma {:induction false} ArrowInGrid(rows: seq<nat>, index: nat, d: Direction)
    requires Grid(rows) && index < RowStart(rows, |rows|)
    ensures 0 <= ArrowTarget(index, d, rows) < RowStart(rows, |rows|)
  {
    var r, c := IndexIsCell(rows, |rows|, index);
    ArrowCells(rows, r, c, d);
    var (q, b) := Neighbour(rows, r, c, d);
    CellInRange(rows, q, b);
  }

  lemma {:induction false} ArrowInRange(n: nat, index: nat, d: Direction)
    requires index < n
    ensures 0 <= ArrowTarget(index, d, GetGridRows(n)) < n
  {
    GridRowsAreGrid(n);
    ArrowInGrid(GetGridRows(n), index, d);
  }

  /** Two presses in a row. */
  function Twice(rows: seq<nat>, index: nat, d: Direction, e: Direction): int {
    var next := ArrowTarget(index, d, rows);
    if next < 0 then next else ArrowTarget(next, e, rows)
  }

  lemma {:induction false} TwoPresses(rows: seq<nat>, r: nat, c: nat, d: Direction, e: Direction)
    requires Grid(rows) && r < |rows| && c < rows[r]
    ensures var (q, b) := Neighbour(rows, r, c, d); var (p, a) := Neighbour(rows, q, b, e);
            Twice(rows, At(rows, r, c), d, e) == At(rows, p, a)
  {
    var (q, b) := Neighbour(rows, r, c, d);
    ArrowCells(rows, r, c, d);
    ArrowCells(rows, q, b, e);
  }

  /** Left and right undo each other. */
  lemma {:induction false} SidewaysUndo(n: nat, r: nat, c: nat)
    requires var rows := GetGridRows(n); r < |rows| && c < rows[r]
    ensures var rows := GetGridRows(n);
            var at := At(rows, r, c); Twice(rows, at, Left, Right) == at && Twice(rows, at, Right, Left) == at
  {
    GridRowsAreGrid(n);
    TwoPresses(GetGridRows(n), r, c, Left, Right);
    TwoPresses(GetGridRows(n), r, c, Right, Left);
  }

  /** Down undoes up off the top row, where up does nothing; up undoes down exactly when the column exists
      in the row below, and down does nothing off the bottom row. */
  lemma {:induction false} UpDownUndo(n: nat, r: nat, c: nat)
    requires var rows := GetGridRows(n); r < |rows| && c < rows[r]
    ensures var rows := GetGridRows(n);
            var at := At(rows, r, c);
            && (if r == 0 then ArrowTarget(at, Up, rows) == at else Twice(rows, at, Up, Down) == at)
            && (if r == |rows| - 1 then ArrowTarget(at, Down, rows) == at
                else (Twice(rows, at, Down, Up) == at <==> c < rows[r + 1]))
  {
    var rows := GetGridRows(n);
    GridRowsAreGrid(n);
    ArrowCells(rows, r, c, Up);
    ArrowCells(rows, r, c, Down);
    TwoPresses(rows, r, c, Up, Down);
    TwoPresses(rows, r, c, Down, Up);
  }

  // ----- Reaching every cell -----

  /** `presses` lead from cell `i` to cell `j`, each on the grid. */
  ghost predicate Leads(rows: seq<nat>, presses: seq<Direction>, i: int, j: int)
    decreases presses
  {
    i >= 0 && if presses == [] then i == j else Leads(rows, presses[1..], ArrowTarget(i, presses[0], rows), j)
  }

  ghost predicate Reaches(rows: seq<nat>, i: int, j: int) {
    exists presses :: Leads(rows, presses, i, j)
  }

  lemma {:induction false} ReachesByPress(rows: seq<nat>, i: nat, d: Direction)
    requires ArrowTarget(i, d, rows) >= 0
    ensures Reaches(rows, i, ArrowTarget(i, d, rows))
  {
    var j := ArrowTarget(i, d, rows);
    assert Leads(rows, [d][1..], j, j);
    assert Leads(rows, [d], i, j);
  }

  lemma {:induction false} ReachesJoins(rows: seq<nat>, i: int, j: int, k: int)
    requires Reaches(rows, i, j) && Reaches(rows, j, k)
    ensures Reaches(rows, i, k)
  {
    var ps :| Leads(rows, ps, i, j);
    var qs :| Leads(rows, qs, j, k);
    LeadsJoins(rows, ps, qs, i, j, k);
  }

  lemma {:induction false} LeadsJoins(rows: seq<nat>, ps: seq<Direction>, qs: seq<Direction>, i: int, j: int, k: int)
    requires Leads(rows, ps, i, j) && Leads(rows, qs, j, k)
    ensures Leads(rows, ps + qs, i, k)
    decreases |ps|
  {
    if ps == [] {
      assert ps + qs == qs;
    } else {
      LeadsJoins(rows, ps[1..], qs, ArrowTarget(i, ps[0], rows), j, k);
      assert (ps + qs)[1..] == ps[1..] + qs;
    }
  }

  /** Left presses lead back to the start of the row and right presses out from it. */
  lemma {:induction false} ReachesNeighbour(rows: seq<nat>, r: nat, c: nat, d: Direction)
    requires Grid(rows) && r < |rows| && c < rows[r]
    ensures var (q, b) := Neighbour(rows, r, c, d); Reaches(rows, At(rows, r, c), At(rows, q, b))
  {
    ArrowCells(rows, r, c, d);
    ReachesByPress(rows, At(rows, r, c), d);
  }

  lemma {:induction false} AlongRow(rows: seq<nat>, r: nat, c: nat)
    requires Grid(rows) && r < |rows| && c < rows[r]
    ensures Reaches(rows, At(rows, r, c), At(rows, r, 0)) && Reaches(rows, At(rows, r, 0), At(rows, r, c))
  {
    if c == 0 {
      assert Leads(rows, [], At(rows, r, 0), At(rows, r, 0));
    } else {
      AlongRow(rows, r, c - 1);
      ReachesNeighbour(rows, r, c, Left);
      ReachesNeighbour(rows, r, c - 1, Right);
      ReachesJoins(rows, At(rows, r, c), At(rows, r, c - 1), At(rows, r, 0));
      ReachesJoins(rows, At(rows, r, 0), At(rows, r, c - 1), At(rows, r, c));
    }
  }

  /** Up presses lead from the start of a row to the first cell, and down presses back. */
  lemma {:induction false} AlongColumn(rows: seq<nat>, r: nat)
    requires Grid(rows) && r < |rows|
    ensures Reaches(rows, At(rows, r, 0), 0) && Reaches(rows, 0, At(rows, r, 0))
  {
    if r == 0 {
      assert Leads(rows, [], 0, 0);
    } else {
      AlongColumn(rows, r - 1);
      ReachesNeighbour(rows, r, 0, Up);
      ReachesNeighbour(rows, r - 1, 0, Down);
      ReachesJoins(rows, At(rows, r, 0), At(rows, r - 1, 0), 0);
      ReachesJoins(rows, 0, At(rows, r - 1, 0), At(rows, r, 0));
    }
  }

  lemma {:induction false} CellToFirst(rows: seq<nat>, r: nat, c: nat)
    requires Grid(rows) && r < |rows| && c < rows[r]
    ensures Reaches(rows, At(rows, r, c), 0) && Reaches(rows, 0, At(rows, r, c))
  {
    AlongRow(rows, r, c);
    AlongColumn(rows, r);
    ReachesJoins(rows, At(rows, r, c), At(rows, r, 0), 0);
    ReachesJoins(rows, 0, At(rows, r, 0), At(rows, r, c));
  }

  lemma {:induction false} IndexToFirst(rows: seq<nat>, i: nat)
    requires Grid(rows) && i < RowStart(rows, |rows|)
    ensures Reaches(rows, i, 0) && Reaches(rows, 0, i)
  {
    var r, c := IndexIsCell(rows, |rows|, i);
    CellToFirst(rows, r, c);
  }

  /** Arrow presses lead from every cell to every other. */
  lemma {:induction false} EveryCellReachable(n: nat, i: nat, j: nat)
    requires i < n && j < n
    ensures Reaches(GetGridRows(n), i, j)
  {
    GridRowsAreGrid(n);
    IndexToFirst(GetGridRows(n), i);
    IndexToFirst(GetGridRows(n), j);
    ReachesJoins(GetGridRows(n), i, 0, j);
  }

  // ----- The node an arrow press moves to -----

  function FindIndex(ids: seq<int>, id: int, from: nat): (k: int)
    requires from <= |ids|
    ensures k == -1 <==> id !in ids[from..]
    ensures k != -1 ==> from <= k < |ids| && ids[k] == id && id !in ids[from..k]
    decreases |ids| - from
  {
    if from == |ids| then -1 else if ids[from] == id then from else FindIndex(ids, id, from + 1)
  }

  /** The id moved to: of the target cell when the active node is shown and the press moves, else none. */
  method TraversalTargetId(visible: seq<int>, active: int, direction: Direction) returns (target: Option<int>)
    ensures target == None <==>
      active !in visible ||
      visible[ArrowTargetOf(visible, FindIndex(visible, active, 0), direction)] == active
    ensures target.Some? ==>
      active in visible && target.value != active &&
      target.value == visible[ArrowTargetOf(visible, FindIndex(visible, active, 0), direction)]
  {
    var currentIndex := FindIndex(visible, active, 0);
    assert visible[0..] == visible;
    if currentIndex == -1 {
      return None;
    }
    var rows := GetGridRows(|visible|);
    var targetIndex := ArrowTargetIndex(currentIndex, direction, rows);
    ArrowInRange(|visible|, currentIndex, direction);
    return if visible[targetIndex] != active then Some(visible[targetIndex]) else None;
  }

  function ArrowTargetOf(visible: seq<int>, at: int, d: Direction): (k: int)
    requires 0 <= at < |visible|
    ensures 0 <= k < |visible|
  {
    ArrowInRange(|visible|, at, d);
    ArrowTarget(at, d, GetGridRows(|visible|))
  }
}
