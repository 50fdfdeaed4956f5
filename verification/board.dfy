/**
 * The grid that both controller variants share: the `Cell` record, the game
 * settings, the geometry of the eight neighbours, the ghost views of a grid
 * that the controllers' invariants are written in, and the grid procedures
 * that GameController.kt and game.kt implement with identical code
 * (allocation, `cellAt`, `neighborsOf`, `putBomb`, `flagAllBombs`,
 * `openAllBombs`), and what the recursive `openCell` of both leaves behind:
 * the cascade.
 *
 * The controllers describe their state with ghost sets of squares, a square
 * being a pair (row, column); `At(x)` is the square of cell `x`.
 */
module Board {

  /** One square of the grid. Its coordinates never change; the four flags and
      the neighbour count are updated in place by the controller. */
  class Cell {
    const row: int
    const column: int
    var hasBomb: bool
    var isOpened: bool
    var isFlagged: bool
    var bombsNear: int

    constructor (row: int, column: int)
      ensures this.row == row && this.column == column
      ensures !hasBomb && !isOpened && !isFlagged && bombsNear == 0
    {
      this.row := row;
      this.column := column;
      hasBomb := false;
      isOpened := false;
      isFlagged := false;
      bombsNear := 0;
    }
  }

  /** Size of the grid and number of mines of one game. */
  datatype GameSettings = GameSettings(rows: int, columns: int, mines: int)

  /** The square of a cell. */
  function At(x: Cell): (int, int) {
    (x.row, x.column)
  }

  /** (r, c) is one of the eight squares around (row, column); never the square itself. */
  predicate Adjacent(row: int, column: int, r: int, c: int) {
    -1 <= r - row <= 1 && -1 <= c - column <= 1 && (r != row || c != column)
  }

  // ---------------------------------------------------------------------------
  // Squares around a square

  /** The squares of `s` among the eight around (row, column). */
  function Around(s: set<(int, int)>, row: int, column: int): set<(int, int)> {
    set p {:trigger p in s} | p in s && Adjacent(row, column, p.0, p.1)
  }

  /** The eight squares around (row, column), whether on the board or not. */
  function Ring(row: int, column: int): set<(int, int)> {
    {(row - 1, column - 1), (row - 1, column), (row - 1, column + 1), (row, column - 1),
     (row, column + 1), (row + 1, column - 1), (row + 1, column), (row + 1, column + 1)}
  }

  lemma SubsetCard<T>(a: set<T>, b: set<T>)
    requires a <= b
    ensures |a| <= |b|
  {
    assert b == a + (b - a);
  }

  /** A square never has more than eight mines around it. */
  lemma AroundAtMostEight(mines: set<(int, int)>, row: int, column: int)
    ensures |Around(mines, row, column)| <= 8
  {
    var ring := Ring(row, column);
    assert |ring| == 8;
    assert Around(mines, row, column) <= ring;
    SubsetCard(Around(mines, row, column), ring);
  }

  /** Adding a new mine raises the count of exactly the squares around it, by one. */
  lemma AroundAdd(mines: set<(int, int)>, q: (int, int), row: int, column: int)
    requires q !in mines
    ensures |Around(mines + {q}, row, column)|
         == |Around(mines, row, column)| + Ind(Adjacent(q.0, q.1, row, column))
  {
    if Adjacent(row, column, q.0, q.1) {
      assert Around(mines + {q}, row, column) == Around(mines, row, column) + {q};
    } else {
      assert Around(mines + {q}, row, column) == Around(mines, row, column);
    }
  }

  // ---------------------------------------------------------------------------
  // Ghost views of a grid of cells

  /** `cells` holds `repr` exactly, each cell at its own coordinates. */
  ghost predicate WellFormed(cells: array2<Cell>, repr: set<Cell>)
    reads cells
  {
    (forall r, c :: 0 <= r < cells.Length0 && 0 <= c < cells.Length1 ==>
       cells[r, c] in repr && cells[r, c].row == r && cells[r, c].column == c) &&
    (forall x {:trigger x in repr} :: x in repr ==>
       0 <= x.row < cells.Length0 && 0 <= x.column < cells.Length1 && cells[x.row, x.column] == x)
  }

  /** `squares` are the squares of a `rows` by `columns` grid. */
  ghost predicate IsGrid(squares: set<(int, int)>, rows: int, columns: int) {
    forall p {:trigger p in squares} :: p in squares <==> 0 <= p.0 < rows && 0 <= p.1 < columns
  }

  /** A cell has a mine exactly when its square is among `mines`. */
  ghost predicate MinesMarked(repr: set<Cell>, mines: set<(int, int)>)
    reads repr`hasBomb
  {
    forall x {:trigger x.hasBomb} :: x in repr ==> (x.hasBomb <==> At(x) in mines)
  }

  /** Every cell's `bombsNear` is the number of squares of `mines` around it. */
  ghost predicate CountsExact(repr: set<Cell>, mines: set<(int, int)>)
    reads repr`bombsNear
  {
    forall x {:trigger x.bombsNear} :: x in repr ==> x.bombsNear == |Around(mines, x.row, x.column)|
  }

  /** With exact counts, `bombsNear` is a single digit. */
  lemma CountsExactBound(repr: set<Cell>, mines: set<(int, int)>, x: Cell)
    requires CountsExact(repr, mines) && x in repr
    ensures 0 <= x.bombsNear <= 8
  {
    AroundAtMostEight(mines, x.row, x.column);
  }

  // ---------------------------------------------------------------------------
  // Grid procedures

  /** The squares of a `rows` by `columns` grid, row by row. */
  ghost function GridSquares(rows: nat, columns: nat): set<(int, int)> {
    if rows == 0 then {} else GridSquares(rows - 1, columns) + RowSquares(rows - 1, columns)
  }

  /** The first `columns` squares of row `r`. */
  ghost function RowSquares(r: int, columns: nat): set<(int, int)> {
    if columns == 0 then {} else RowSquares(r, columns - 1) + {(r, columns - 1)}
  }

  lemma {:induction false} RowSquaresExact(r: int, columns: nat)
    ensures forall p {:trigger p in RowSquares(r, columns)} ::
      p in RowSquares(r, columns) <==> p.0 == r && 0 <= p.1 < columns
    ensures |RowSquares(r, columns)| == columns
  {
    if columns > 0 {
      RowSquaresExact(r, columns - 1);
      assert (r, columns - 1) !in RowSquares(r, columns - 1);
    }
  }

  /** A grid has `rows * columns` squares, and they are those in range. */
  lemma {:induction false} SquaresExact(rows: nat, columns: nat)
    ensures IsGrid(GridSquares(rows, columns), rows, columns)
    ensures |GridSquares(rows, columns)| == rows * columns
  {
    if rows > 0 {
      SquaresExact(rows - 1, columns);
      RowSquaresExact(rows - 1, columns);
      assert GridSquares(rows - 1, columns) !! RowSquares(rows - 1, columns);
      assert (rows - 1) * columns + columns == rows * columns;
    }
  }

  /** `Array(rows) { row -> Array(columns) { column -> Cell(row, column) } }`:
      a grid of fresh, empty cells, each at its own coordinates. */
  method NewCells(rows: nat, columns: nat) returns (cells: array2<Cell>, ghost repr: set<Cell>)
    ensures fresh(cells) && cells.Length0 == rows && cells.Length1 == columns
    ensures WellFormed(cells, repr)
    ensures forall x :: x in repr ==> fresh(x) && !x.hasBomb && !x.isOpened && !x.isFlagged && x.bombsNear == 0
  {
    var filler := new Cell(-1, -1);
    cells := new Cell[rows, columns]((_, _) => filler);
    repr := {};
    for r := 0 to rows
      invariant forall r', c' :: 0 <= r' < r && 0 <= c' < columns ==>
        cells[r', c'] in repr && cells[r', c'].row == r' && cells[r', c'].column == c'
      invariant forall x :: x in repr ==>
        0 <= x.row < r && 0 <= x.column < columns && cells[x.row, x.column] == x
      invariant forall x :: x in repr ==>
        fresh(x) && !x.hasBomb && !x.isOpened && !x.isFlagged && x.bombsNear == 0
    {
      for c := 0 to columns
        invariant forall r', c' :: (0 <= r' < r && 0 <= c' < columns) || (r' == r && 0 <= c' < c) ==>
          cells[r', c'] in repr && cells[r', c'].row == r' && cells[r', c'].column == c'
        invariant forall x :: x in repr ==>
          0 <= x.column < columns && (0 <= x.row < r || (x.row == r && x.column < c)) &&
          cells[x.row, x.column] == x
        invariant forall x :: x in repr ==>
          fresh(x) && !x.hasBomb && !x.isOpened && !x.isFlagged && x.bombsNear == 0
      {
        var cell := new Cell(r, c);
        cells[r, c] := cell;
        repr := repr + {cell};
      }
    }
  }

  /** `cells.getOrNull(row)?.getOrNull(column)`: the cell at (row, column), or
      null off the grid. */
  function CellAt(cells: array2<Cell>, ghost repr: set<Cell>, row: int, column: int): (cell: Cell?)
    requires WellFormed(cells, repr)
    reads cells
    ensures cell != null <==> 0 <= row < cells.Length0 && 0 <= column < cells.Length1
    ensures cell != null ==> cell in repr && At(cell) == (row, column)
    ensures forall x :: x in repr && At(x) == (row, column) ==> cell == x
  {
    if 0 <= row < cells.Length0 && 0 <= column < cells.Length1 then cells[row, column] else null
  }

  /** The cell at (r, c) as a list of zero or one element, as `cellAt(r, c)?.let { result.add(it) }` adds it. */
  function CellList(cells: array2<Cell>, ghost repr: set<Cell>, r: int, c: int): (result: seq<Cell>)
    requires WellFormed(cells, repr)
    reads cells
    ensures forall x :: x in result ==> x in repr
    ensures forall x :: x in repr ==> multiset(result)[x] == Ind(x.row == r && x.column == c)
  {
    var cell := CellAt(cells, repr, r, c);
    if cell == null then [] else [cell]
  }

  /** 1 for true, 0 for false. */
  function Ind(b: bool): nat { if b then 1 else 0 }

  /** Of the eight offsets the source probes, exactly one hits (r, c) when it is adjacent. */
  lemma RingSum(row: int, column: int, r: int, c: int)
    ensures Ind(r == row - 1 && c == column - 1) + Ind(r == row - 1 && c == column) + Ind(r == row - 1 && c == column + 1)
          + Ind(r == row && c == column - 1) + Ind(r == row && c == column + 1)
          + Ind(r == row + 1 && c == column - 1) + Ind(r == row + 1 && c == column) + Ind(r == row + 1 && c == column + 1)
         == Ind(Adjacent(row, column, r, c))
  {}

  /** `neighborsOf(row, column)`: every cell adjacent to (row, column) exactly once,
      and nothing else (the square itself and off-board squares are left out). */
  method NeighborsOf(cells: array2<Cell>, ghost repr: set<Cell>, row: int, column: int) returns (result: seq<Cell>)
    requires WellFormed(cells, repr)
    ensures forall x :: x in result ==> x in repr
    ensures forall x :: x in repr ==> multiset(result)[x] == Ind(Adjacent(row, column, x.row, x.column))
  {
    var l0 := CellList(cells, repr, row - 1, column - 1);
    var l1 := CellList(cells, repr, row - 1, column);
    var l2 := CellList(cells, repr, row - 1, column + 1);
    var l3 := CellList(cells, repr, row, column - 1);
    var l4 := CellList(cells, repr, row, column + 1);
    var l5 := CellList(cells, repr, row + 1, column - 1);
    var l6 := CellList(cells, repr, row + 1, column);
    var l7 := CellList(cells, repr, row + 1, column + 1);
    result := l0 + l1 + l2 + l3 + l4 + l5 + l6 + l7;
    NeighbourCount(cells, repr, row, column, l0, l1, l2, l3, l4, l5, l6, l7);
  }

  lemma NeighbourCount(cells: array2<Cell>, repr: set<Cell>, row: int, column: int,
                       l0: seq<Cell>, l1: seq<Cell>, l2: seq<Cell>, l3: seq<Cell>,
                       l4: seq<Cell>, l5: seq<Cell>, l6: seq<Cell>, l7: seq<Cell>)
    requires WellFormed(cells, repr)
    requires l0 == CellList(cells, repr, row - 1, column - 1) && l1 == CellList(cells, repr, row - 1, column)
    requires l2 == CellList(cells, repr, row - 1, column + 1) && l3 == CellList(cells, repr, row, column - 1)
    requires l4 == CellList(cells, repr, row, column + 1) && l5 == CellList(cells, repr, row + 1, column - 1)
    requires l6 == CellList(cells, repr, row + 1, column) && l7 == CellList(cells, repr, row + 1, column + 1)
    ensures forall x :: x in repr ==>
      multiset(l0 + l1 + l2 + l3 + l4 + l5 + l6 + l7)[x] == Ind(Adjacent(row, column, x.row, x.column))
  {
    forall x | x in repr
      ensures multiset(l0 + l1 + l2 + l3 + l4 + l5 + l6 + l7)[x] == Ind(Adjacent(row, column, x.row, x.column))
    {
      calc {
        multiset(l0 + l1 + l2 + l3 + l4 + l5 + l6 + l7)[x];
        multiset(l0)[x] + multiset(l1)[x] + multiset(l2)[x] + multiset(l3)[x]
          + multiset(l4)[x] + multiset(l5)[x] + multiset(l6)[x] + multiset(l7)[x];
        { RingSum(row, column, x.row, x.column); }
        Ind(Adjacent(row, column, x.row, x.column));
      }
    }
  }

  /** When `x` counts no mine around it, every cell `neighborsOf` lists for it is
      safe: the cascade from `x` never reaches a mine. */
  lemma NoMineAround(repr: set<Cell>, mines: set<(int, int)>, x: Cell, ns: seq<Cell>)
    requires CountsExact(repr, mines) && x in repr && x.bombsNear == 0
    requires forall y :: y in ns ==> y in repr
    requires forall y :: y in repr ==> multiset(ns)[y] == Ind(Adjacent(x.row, x.column, y.row, y.column))
    ensures forall y :: y in ns ==> At(y) !in mines
  {
    assert Around(mines, x.row, x.column) == {};
    forall y | y in ns
      ensures At(y) !in mines
    {
      assert multiset(ns)[y] > 0;
      assert Adjacent(x.row, x.column, y.row, y.column);
      assert At(y) !in Around(mines, x.row, x.column);
    }
  }

  /** Once every cell that `neighborsOf` lists for (row, column) is among `done`,
      so is every square of the grid around it. */
  lemma NeighboursCover(cells: array2<Cell>, repr: set<Cell>, squares: set<(int, int)>,
                        row: int, column: int, ns: seq<Cell>, done: set<(int, int)>)
    requires WellFormed(cells, repr) && IsGrid(squares, cells.Length0, cells.Length1)
    requires forall y :: y in repr ==> multiset(ns)[y] == Ind(Adjacent(row, column, y.row, y.column))
    requires forall j :: 0 <= j < |ns| ==> At(ns[j]) in done
    ensures Around(squares, row, column) <= done
  {
    forall q | q in Around(squares, row, column)
      ensures q in done
    {
      var y := cells[q.0, q.1];
      assert multiset(ns)[y] > 0;
      var j :| 0 <= j < |ns| && ns[j] == y;
    }
  }

  /** Every cell that `neighborsOf` lists for (row, column) is at a square of the
      grid around it. */
  lemma NeighboursAround(cells: array2<Cell>, repr: set<Cell>, squares: set<(int, int)>,
                         row: int, column: int, ns: seq<Cell>)
    requires WellFormed(cells, repr) && IsGrid(squares, cells.Length0, cells.Length1)
    requires forall y :: y in ns ==> y in repr
    requires forall y :: y in repr ==> multiset(ns)[y] == Ind(Adjacent(row, column, y.row, y.column))
    ensures forall j :: 0 <= j < |ns| ==> At(ns[j]) in Around(squares, row, column)
  {
    forall j | 0 <= j < |ns|
      ensures At(ns[j]) in Around(squares, row, column)
    {
      assert ns[j] in ns && ns[j] in repr && multiset(ns)[ns[j]] > 0;
      assert At(ns[j]) in squares;
    }
  }

  /** `hasBomb = true` then `neighborsOf(cell).forEach { it.bombsNear += 1 }`. Placing a
      bomb on a square not yet among `mines` keeps every neighbour count exact. */
  method PlaceBomb(cells: array2<Cell>, ghost repr: set<Cell>, cell: Cell, ghost mines: set<(int, int)>)
    requires WellFormed(cells, repr) && cell in repr
    modifies repr`hasBomb, repr`bombsNear
    ensures forall x :: x in repr ==> x.hasBomb == (old(x.hasBomb) || x == cell)
    ensures forall x :: x in repr ==>
      x.bombsNear == old(x.bombsNear) + Ind(Adjacent(cell.row, cell.column, x.row, x.column))
    ensures forall x :: x in repr ==> x.isOpened == old(x.isOpened) && x.isFlagged == old(x.isFlagged)
    ensures old(CountsExact(repr, mines)) && At(cell) !in mines ==> CountsExact(repr, mines + {At(cell)})
  {
    cell.hasBomb := true;
    var ns := NeighborsOf(cells, repr, cell.row, cell.column);
    IncrementAll(repr, ns);
    if old(CountsExact(repr, mines)) && At(cell) !in mines {
      forall x | x in repr
        ensures x.bombsNear == |Around(mines + {At(cell)}, x.row, x.column)|
      {
        assert old(x.bombsNear) == |Around(mines, x.row, x.column)|;
        AroundAdd(mines, At(cell), x.row, x.column);
      }
    }
  }

  /** `forEach { it.bombsNear += 1 }`: each cell gains one per occurrence in `ns`. */
  method IncrementAll(ghost repr: set<Cell>, ns: seq<Cell>)
    requires forall x :: x in ns ==> x in repr
    modifies repr`bombsNear
    ensures forall x :: x in repr ==> x.bombsNear == old(x.bombsNear) + multiset(ns)[x]
    ensures forall x :: x in repr ==>
      x.hasBomb == old(x.hasBomb) && x.isOpened == old(x.isOpened) && x.isFlagged == old(x.isFlagged)
  {
    for i := 0 to |ns|
      invariant forall x :: x in repr ==> x.bombsNear == old(x.bombsNear) + multiset(ns[..i])[x]
    {
      assert ns[..i + 1] == ns[..i] + [ns[i]];
      ns[i].bombsNear := ns[i].bombsNear + 1;
    }
    assert ns[..|ns|] == ns;
  }

  /** `openAllBombs`: opens every bomb that is not flagged, and nothing else. */
  method OpenAllBombs(cells: array2<Cell>, ghost repr: set<Cell>)
    requires WellFormed(cells, repr)
    modifies repr`isOpened
    ensures forall x :: x in repr ==> x.isOpened == (old(x.isOpened) || (x.hasBomb && !x.isFlagged))
    ensures forall x :: x in repr ==>
      x.isFlagged == old(x.isFlagged) && x.hasBomb == old(x.hasBomb) && x.bombsNear == old(x.bombsNear)
  {
    for r := 0 to cells.Length0
      invariant forall x :: x in repr ==>
        x.isOpened == (old(x.isOpened) || (x.row < r && x.hasBomb && !x.isFlagged))
    {
      for c := 0 to cells.Length1
        invariant forall x :: x in repr ==>
          x.isOpened == (old(x.isOpened) || ((x.row < r || (x.row == r && x.column < c)) && x.hasBomb && !x.isFlagged))
      {
        var cell := cells[r, c];
        if cell.hasBomb && !cell.isFlagged {
          cell.isOpened := true;
        }
      }
    }
  }

  /** `flagAllBombs`: flags every cell that is not opened, and nothing else. */
  method FlagAllBombs(cells: array2<Cell>, ghost repr: set<Cell>)
    requires WellFormed(cells, repr)
    modifies repr`isFlagged
    ensures forall x :: x in repr ==> x.isFlagged == (old(x.isFlagged) || !x.isOpened)
    ensures forall x :: x in repr ==>
      x.isOpened == old(x.isOpened) && x.hasBomb == old(x.hasBomb) && x.bombsNear == old(x.bombsNear)
  {
    for r := 0 to cells.Length0
      invariant forall x :: x in repr ==>
        x.isFlagged == (old(x.isFlagged) || (x.row < r && !x.isOpened))
    {
      for c := 0 to cells.Length1
        invariant forall x :: x in repr ==>
          x.isFlagged == (old(x.isFlagged) || ((x.row < r || (x.row == r && x.column < c)) && !x.isOpened))
      {
        var cell := cells[r, c];
        if !cell.isOpened {
          cell.isFlagged := true;
        }
      }
    }
  }

  // ---------------------------------------------------------------------------
  // Mine placement by draws

  /** The square that draw `k` of `Random.nextInt(rows * columns)` names:
      `cells[random / columns][random % columns]`. */
  function Pick(k: int, columns: int): (int, int)
    requires columns > 0
  {
    (k / columns, k % columns)
  }

  /** Every draw below `rows * columns` names a square of the board. */
  lemma PickOnBoard(k: int, rows: int, columns: int)
    requires rows >= 0 && columns >= 0 && 0 <= k < rows * columns
    ensures columns > 0 && 0 <= Pick(k, columns).0 < rows && 0 <= Pick(k, columns).1 < columns
  {
    assert columns > 0;
    if k / columns >= rows {
      assert columns * (k / columns) >= columns * rows;
    }
  }

  /** Different draws name different squares. */
  lemma PickInjective(k: int, j: int, columns: int)
    requires columns > 0 && k != j
    ensures Pick(k, columns) != Pick(j, columns)
  {
    assert k == columns * (k / columns) + k % columns;
    assert j == columns * (j / columns) + j % columns;
  }

  /** The squares that the draws in `picks` name. */
  function PickedSquares(picks: seq<int>, columns: int): set<(int, int)>
    requires columns > 0
  {
    set k | k in picks :: Pick(k, columns)
  }

  lemma PickedSquaresGrow(picks: seq<int>, i: int, columns: int)
    requires columns > 0 && 0 <= i < |picks|
    ensures PickedSquares(picks[..i + 1], columns) == PickedSquares(picks[..i], columns) + {Pick(picks[i], columns)}
  {
    assert picks[..i + 1] == picks[..i] + [picks[i]];
  }

  /** A draw not made before names a square not named before. */
  lemma PickIsNew(picks: seq<int>, i: int, columns: int)
    requires columns > 0 && 0 <= i < |picks|
    requires forall a, b :: 0 <= a < b < |picks| ==> picks[a] != picks[b]
    ensures Pick(picks[i], columns) !in PickedSquares(picks[..i], columns)
  {
    forall k | k in picks[..i]
      ensures Pick(k, columns) != Pick(picks[i], columns)
    {
      var a :| 0 <= a < i && picks[a] == k;
      PickInjective(k, picks[i], columns);
    }
  }

  /** The cell that draw `random` names: `cells[random / columns][random % columns]`. */
  function CellOfDraw(cells: array2<Cell>, ghost repr: set<Cell>, random: int): (cell: Cell)
    requires WellFormed(cells, repr) && 0 <= random < cells.Length0 * cells.Length1
    reads cells
    ensures cells.Length1 > 0 && cell in repr && At(cell) == Pick(random, cells.Length1)
  {
    PickOnBoard(random, cells.Length0, cells.Length1);
    cells[random / cells.Length1, random % cells.Length1]
  }

  /** `putBomb` with the draw it accepted, which names a cell without a mine:
      that cell gets a mine and every neighbour's count goes up by one. */
  method PutBomb(cells: array2<Cell>, ghost repr: set<Cell>, random: int, ghost mines: set<(int, int)>)
    requires WellFormed(cells, repr) && 0 <= random < cells.Length0 * cells.Length1
    requires !CellOfDraw(cells, repr, random).hasBomb
    modifies repr`hasBomb, repr`bombsNear
    ensures forall x :: x in repr ==> x.hasBomb == (old(x.hasBomb) || At(x) == Pick(random, cells.Length1))
    ensures old(CountsExact(repr, mines)) && Pick(random, cells.Length1) !in mines ==>
      CountsExact(repr, mines + {Pick(random, cells.Length1)})
    ensures old(MinesMarked(repr, mines)) ==> MinesMarked(repr, mines + {Pick(random, cells.Length1)})
    ensures forall x :: x in repr ==> x.isOpened == old(x.isOpened) && x.isFlagged == old(x.isFlagged)
  {
    var cell := CellOfDraw(cells, repr, random);
    PlaceBomb(cells, repr, cell, mines);
  }

  /** The next accepted draw names a square of the grid that no earlier draw
      named, so its cell has no mine yet, and the drawn squares grow by it. */
  lemma DrawStep(cells: array2<Cell>, repr: set<Cell>, squares: set<(int, int)>, picks: seq<int>, i: int,
                 placed: set<(int, int)>)
    requires WellFormed(cells, repr) && IsGrid(squares, cells.Length0, cells.Length1)
    requires forall i :: 0 <= i < |picks| ==> 0 <= picks[i] < cells.Length0 * cells.Length1
    requires forall i, j :: 0 <= i < j < |picks| ==> picks[i] != picks[j]
    requires 0 <= i < |picks| && MinesMarked(repr, placed)
    requires cells.Length1 > 0 ==> placed == PickedSquares(picks[..i], cells.Length1)
    ensures cells.Length1 > 0
    ensures Pick(picks[i], cells.Length1) in squares && Pick(picks[i], cells.Length1) !in placed
    ensures PickedSquares(picks[..i + 1], cells.Length1) == placed + {Pick(picks[i], cells.Length1)}
    ensures !CellOfDraw(cells, repr, picks[i]).hasBomb
  {
    PickOnBoard(picks[i], cells.Length0, cells.Length1);
    PickIsNew(picks, i, cells.Length1);
    PickedSquaresGrow(picks, i, cells.Length1);
  }

  /** The mine-placing loop of the controller's constructor: `putBomb` once per
      accepted draw, starting from a grid without mines. */
  method PlaceDraws(cells: array2<Cell>, ghost repr: set<Cell>, ghost squares: set<(int, int)>, picks: seq<int>)
    returns (ghost placed: set<(int, int)>)
    requires WellFormed(cells, repr) && IsGrid(squares, cells.Length0, cells.Length1)
    requires forall i :: 0 <= i < |picks| ==> 0 <= picks[i] < cells.Length0 * cells.Length1
    requires forall i, j :: 0 <= i < j < |picks| ==> picks[i] != picks[j]
    requires forall x :: x in repr ==> !x.hasBomb && x.bombsNear == 0 && !x.isOpened && !x.isFlagged
    modifies repr`hasBomb, repr`bombsNear
    ensures placed <= squares && |placed| == |picks|
    ensures cells.Length1 > 0 ==> placed == PickedSquares(picks, cells.Length1)
    ensures MinesMarked(repr, placed) && CountsExact(repr, placed)
    ensures forall x :: x in repr ==> !x.isOpened && !x.isFlagged
  {
    placed := {};
    for i := 0 to |picks|
      invariant placed <= squares && |placed| == i
      invariant cells.Length1 > 0 ==> placed == PickedSquares(picks[..i], cells.Length1)
      invariant MinesMarked(repr, placed) && CountsExact(repr, placed)
      invariant forall x :: x in repr ==> !x.isOpened && !x.isFlagged
    {
      DrawStep(cells, repr, squares, picks, i, placed);
      PutBomb(cells, repr, picks[i], placed);
      placed := placed + {Pick(picks[i], cells.Length1)};
    }
    if cells.Length1 > 0 {
      assert picks[..|picks|] == picks;
    }
  }

  // ---------------------------------------------------------------------------
  // Set facts the controllers' counters rest on

  /** Removing a subset takes its size away. */
  lemma DiffCard<T>(a: set<T>, b: set<T>)
    requires b <= a
    ensures |a - b| == |a| - |b|
  {
    assert a == (a - b) + b;
  }

  // ---------------------------------------------------------------------------
  // The cascade

  /** The cascade has nothing left to do at any square of `reached`: each has a
      mine around it, or every square of the grid around it is in `done`. */
  ghost predicate Settled(mines: set<(int, int)>, squares: set<(int, int)>, reached: set<(int, int)>, done: set<(int, int)>) {
    forall p {:trigger p in reached} :: p in reached && Around(mines, p.0, p.1) == {} ==>
      Around(squares, p.0, p.1) <= done
  }

  /** Two stretches of a cascade, each settled, make a settled whole. */
  lemma SettledJoin(mines: set<(int, int)>, squares: set<(int, int)>, o0: set<(int, int)>, o1: set<(int, int)>,
                    o2: set<(int, int)>, d1: set<(int, int)>, d2: set<(int, int)>)
    requires o0 <= o1 <= o2 && d1 <= d2
    requires Settled(mines, squares, o1 - o0, d1) && Settled(mines, squares, o2 - o1, d2)
    ensures Settled(mines, squares, o2 - o0, d2)
  {
    forall p | p in o2 - o0 && Around(mines, p.0, p.1) == {}
      ensures Around(squares, p.0, p.1) <= d2
    {
      if p in o1 {
        assert p in o1 - o0;
      } else {
        assert p in o2 - o1;
      }
    }
  }

  /** A settled cascade from square `p`, together with `p` itself settled, is settled. */
  lemma SettledAdd(mines: set<(int, int)>, squares: set<(int, int)>, start: set<(int, int)>, mid: set<(int, int)>,
                   now: set<(int, int)>, p: (int, int), done: set<(int, int)>)
    requires mid == start + {p} && mid <= now
    requires Settled(mines, squares, now - mid, done)
    requires Around(mines, p.0, p.1) == {} ==> Around(squares, p.0, p.1) <= done
    ensures Settled(mines, squares, now - start, done)
  {
    forall q | q in now - start && Around(mines, q.0, q.1) == {}
      ensures Around(squares, q.0, q.1) <= done
    {
      if q != p {
        assert q in now - mid;
      }
    }
  }

  /** `r` is a region the cascade from square `p` cannot leave: it holds `p`, and
      every square of `r` with no mine around has all its neighbours in `r` or in
      `done`, the squares opened or flagged before the move. The squares a move
      opens lie in every such region, and form one themselves: they are the
      least region, the flood fill from `p`. */
  ghost predicate Region(mines: set<(int, int)>, squares: set<(int, int)>, r: set<(int, int)>,
                         p: (int, int), done: set<(int, int)>) {
    p in r &&
    forall q {:trigger Around(squares, q.0, q.1)} :: q in r && Around(mines, q.0, q.1) == {} ==>
      Around(squares, q.0, q.1) <= r + done
  }

  /** The squares of `open` not in `start` lie in every region of the cascade
      from `c` that `done` bounds: nothing outside the flood fill from `c` is open. */
  ghost predicate Confined(mines: set<(int, int)>, squares: set<(int, int)>, open: set<(int, int)>,
                           c: (int, int), start: set<(int, int)>, done: set<(int, int)>) {
    forall r :: Region(mines, squares, r, c, done) ==> open - start <= r
  }

  /** A region of a cell with no mine around is a region of each of its
      neighbours not yet opened or flagged, as the move goes on. */
  lemma RegionGrows(mines: set<(int, int)>, squares: set<(int, int)>, r: set<(int, int)>, c: (int, int),
                    p: (int, int), done0: set<(int, int)>, done1: set<(int, int)>)
    requires Region(mines, squares, r, c, done0) && Around(mines, c.0, c.1) == {}
    requires p in Around(squares, c.0, c.1) && done0 <= done1 && p !in done1
    ensures Region(mines, squares, r, p, done1)
  {
    assert Around(squares, c.0, c.1) <= r + done0;
  }

  /** One step of the cascade from `c` stays in every region of `c`: either it
      opened nothing, or it opened a neighbour `p` of `c` not opened or flagged
      before, and then only squares in every region of `p`. */
  lemma RegionStep(mines: set<(int, int)>, squares: set<(int, int)>, c: (int, int), p: (int, int),
                   start: set<(int, int)>, done0: set<(int, int)>, open1: set<(int, int)>,
                   done1: set<(int, int)>, open2: set<(int, int)>)
    requires Confined(mines, squares, open1, c, start, done0)
    requires open2 == open1 ||
      (Around(mines, c.0, c.1) == {} && p in Around(squares, c.0, c.1) && done0 <= done1 && p !in done1 &&
       open1 <= open2 && Confined(mines, squares, open2, p, open1, done1))
    ensures Confined(mines, squares, open2, c, start, done0)
  {
    if open2 != open1 {
      forall r | Region(mines, squares, r, c, done0)
        ensures open2 - start <= r
      {
        RegionGrows(mines, squares, r, c, p, done0, done1);
      }
    }
  }

  /** The two bounds proved of a move determine what it opens: a set of squares
      holding `p`, settled, and inside every region from `p` is the least region,
      and there is only one such set. */
  lemma FloodFillUnique(mines: set<(int, int)>, squares: set<(int, int)>, p: (int, int), done: set<(int, int)>,
                        o1: set<(int, int)>, o2: set<(int, int)>)
    requires p in o1 && Settled(mines, squares, o1, o1 + done)
    requires forall r :: Region(mines, squares, r, p, done) ==> o1 <= r
    requires p in o2 && Settled(mines, squares, o2, o2 + done)
    requires forall r :: Region(mines, squares, r, p, done) ==> o2 <= r
    ensures o1 == o2
  {
    assert Region(mines, squares, o1, p, done);
    assert Region(mines, squares, o2, p, done);
  }

  /** Opening a square outside `start` leaves fewer squares to open: the measure
      that makes the cascade stop. */
  lemma Shrinks<T>(all: set<T>, start: set<T>, now: set<T>, p: T)
    requires p in all && p !in start && start + {p} <= now
    ensures all - now < all - start
  {
    assert p in all - start && p !in all - now;
  }
}
