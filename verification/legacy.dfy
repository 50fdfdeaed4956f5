/**
 * The older rules engine of game.kt (lines 21-156): the same grid and the same
 * moves as GameController.kt, but without a clock and without a `finished`
 * flag. The game runs from construction on, and `openCell` checks for a win
 * only after its cascade has returned. The random mine placement is replaced
 * by the sequence of accepted draws, and the `onWin`/`onLose` callbacks by
 * ghost counters of how often each was invoked.
 */
module Legacy {
  import opened Board

  /** One game, as game.kt plays it. */
  class GameController {
    const rows: int
    const columns: int
    const bombs: int
    var running: bool
    var flagsSet: int
    var cellsToOpen: int
    const cells: array2<Cell>
    /** All cells of the grid, and their squares. */
    ghost const Repr: set<Cell>
    ghost const Squares: set<(int, int)>
    /** The mined, the opened and the flagged squares. */
    ghost var Mines: set<(int, int)>
    ghost var Open: set<(int, int)>
    ghost var Flags: set<(int, int)>
    /** How often `onWin` and `onLose` have been invoked. */
    ghost var wins: nat
    ghost var losses: nat
    /** The safe squares not opened yet. */
    ghost var ToOpen: set<(int, int)>

    /** The grid is `rows` by `columns` and holds `Repr`, each cell at its square. */
    ghost predicate Shaped()
      reads cells
    {
      cells.Length0 == rows && cells.Length1 == columns && WellFormed(cells, Repr) &&
      IsGrid(Squares, rows, columns) && |Squares| == rows * columns
    }

    /** The mine layout: fixed once the game is set up. */
    ghost predicate Layout()
      reads cells, this`Mines, Repr`hasBomb, Repr`bombsNear
    {
      Shaped() && Mines <= Squares && |Mines| == bombs &&
      MinesMarked(Repr, Mines) && CountsExact(Repr, Mines)
    }

    /** `Open` and `Flags` are the opened and the flagged squares. */
    ghost predicate Marks()
      reads this`Open, this`Flags, Repr`isOpened, Repr`isFlagged
    {
      Open <= Squares && Flags <= Squares &&
      (forall x {:trigger x.isOpened} :: x in Repr ==> (x.isOpened <==> At(x) in Open)) &&
      (forall x {:trigger x.isFlagged} :: x in Repr ==> (x.isFlagged <==> At(x) in Flags))
    }

    /** `cellsToOpen` counts the safe squares not opened yet. */
    ghost predicate Tally()
      reads this`Mines, this`Open, this`ToOpen, this`cellsToOpen
    {
      (forall p {:trigger p in ToOpen} :: p in ToOpen <==> p in Squares && p !in Mines && p !in Open) &&
      cellsToOpen == |ToOpen|
    }

    /** How the counters and the game's phase relate to the marked squares. A
        running game has invoked neither callback; once `onWin` has been invoked
        no safe square is left closed and `onLose` never is. */
    ghost predicate Progress()
      reads this`Mines, this`Open, this`Flags, this`ToOpen, this`cellsToOpen, this`flagsSet
      reads this`running, this`wins, this`losses
    {
      Open !! Flags && Tally() &&
      (wins == 0 ==> flagsSet == |Flags|) &&
      (running ==> wins == 0 && losses == 0) &&
      (wins > 0 ==> losses == 0 && cellsToOpen == 0) &&
      losses <= 1 &&
      (losses == 0 ==> Open !! Mines)
    }

    /** What holds between any two moves of the game. */
    ghost predicate Valid()
      reads this, cells, Repr
    {
      Layout() && Marks() && Progress()
    }

    /** A new game, running at once. `picks` are the draws of
        `Random.nextInt(rows * columns)` that `putBomb` accepted, one per mine,
        each naming a square without a mine yet. */
    constructor (options: GameSettings, picks: seq<int>)
      requires options.rows >= 0 && options.columns >= 0 && |picks| == options.mines
      requires forall i :: 0 <= i < |picks| ==> 0 <= picks[i] < options.rows * options.columns
      requires forall i, j :: 0 <= i < j < |picks| ==> picks[i] != picks[j]
      ensures Valid() && fresh(cells) && fresh(Repr)
      ensures rows == options.rows && columns == options.columns && bombs == options.mines
      ensures running && flagsSet == 0 && wins == 0 && losses == 0
      ensures cellsToOpen == rows * columns - bombs
      ensures Open == {} && Flags == {}
      ensures columns > 0 ==> Mines == PickedSquares(picks, columns)
    {
      var grid;
      ghost var all;
      grid, all := NewCells(options.rows, options.columns);
      ghost var squares := GridSquares(options.rows, options.columns);
      SquaresExact(options.rows, options.columns);
      ghost var placed := PlaceDraws(grid, all, squares, picks);
      DiffCard(squares, placed);
      rows, columns, bombs := options.rows, options.columns, options.mines;
      running, flagsSet := true, 0;
      cellsToOpen := options.rows * options.columns - options.mines;
      cells, Repr, Squares := grid, all, squares;
      Mines, Open, Flags, ToOpen := placed, {}, {}, squares - placed;
      wins, losses := 0, 0;
    }

    /** `cellAt`: the cell at (row, column), or null off the board. */
    function CellAt(row: int, column: int): (cell: Cell?)
      requires Shaped()
      reads cells
      ensures cell != null <==> 0 <= row < rows && 0 <= column < columns
      ensures cell != null ==> cell in Repr && At(cell) == (row, column)
    {
      Board.CellAt(cells, Repr, row, column)
    }

    /** `endGame`: the game stops running, and nothing else. */
    method EndGame()
      modifies this`running
      ensures !running
    {
      running := false;
    }

    /** The mine layout survives any step that leaves the mines, `hasBomb` and
        `bombsNear` alone. */
    twostate lemma LayoutKept()
      requires old(Layout()) && Mines == old(Mines) && unchanged(cells)
      requires forall x :: x in Repr ==> x.hasBomb == old(x.hasBomb) && x.bombsNear == old(x.bombsNear)
      ensures Layout()
    {
    }

    /** `win`: stops the game, every square not opened gets a flag, and `onWin`
        is invoked once more. Nothing keeps it from running on a game already won. */
    method Win()
      requires Valid() && cellsToOpen == 0 && losses == 0
      modifies this`running, this`wins, this`Flags, Repr`isFlagged
      ensures Valid() && !running && wins == old(wins) + 1 && flagsSet == old(flagsSet)
      ensures Flags == old(Flags) + (Squares - Open)
    {
      EndGame();
      FlagAllBombs(cells, Repr);
      Flags, wins := Flags + (Squares - Open), wins + 1;
      LayoutKept();
    }

    /** `lose`: stops the game, every mine without a flag is shown, and `onLose` is invoked. */
    method Lose()
      requires Layout() && Marks() && running && wins == 0 && losses == 0
      requires Tally() && Open !! Flags && flagsSet == |Flags|
      modifies this`running, this`losses, this`Open, Repr`isOpened
      ensures Valid() && !running && losses == 1
      ensures Open == old(Open) + (Mines - Flags)
    {
      EndGame();
      OpenAllBombs(cells, Repr);
      Open := Open + (Mines - Flags);
      losses := losses + 1;
    }

    /** `toggleFlag`: puts a flag on a closed cell or takes it away. Ignored once
        the game has stopped and on an opened cell. */
    method ToggleFlag(cell: Cell)
      requires Valid() && cell in Repr
      modifies this`flagsSet, this`Flags, cell`isFlagged
      ensures Valid()
      ensures old(!running || cell.isOpened) ==> unchanged(this, cell)
      ensures !old(!running || cell.isOpened) ==>
        cell.isFlagged == !old(cell.isFlagged) &&
        Flags == (if cell.isFlagged then old(Flags) + {At(cell)} else old(Flags) - {At(cell)}) &&
        flagsSet == old(flagsSet) + (if cell.isFlagged then 1 else -1)
    {
      if !running || cell.isOpened {
        return;
      }
      Flip(cell);
    }

    /** Toggling the same cell twice restores its flag, the flagged squares and `flagsSet`. */
    method ToggleTwice(cell: Cell)
      requires Valid() && cell in Repr
      modifies this`flagsSet, this`Flags, cell`isFlagged
      ensures Valid() && cell.isFlagged == old(cell.isFlagged)
      ensures Flags == old(Flags) && flagsSet == old(flagsSet)
    {
      ToggleFlag(cell);
      ToggleFlag(cell);
    }

    /** No cell is ever both opened and flagged. */
    lemma OpenedNotFlagged()
      requires Valid()
      ensures forall x :: x in Repr ==> !(x.isOpened && x.isFlagged)
    {
    }

    /** The body of `toggleFlag` in a running game: the flag goes on or off and
        `flagsSet` follows it. */
    method Flip(cell: Cell)
      requires Valid() && running && cell in Repr && !cell.isOpened
      modifies this`flagsSet, this`Flags, cell`isFlagged
      ensures Valid() && cell.isFlagged == !old(cell.isFlagged)
      ensures Flags == (if cell.isFlagged then old(Flags) + {At(cell)} else old(Flags) - {At(cell)})
      ensures flagsSet == old(flagsSet) + (if cell.isFlagged then 1 else -1)
    {
      cell.isFlagged := !cell.isFlagged;
      if cell.isFlagged {
        flagsSet := flagsSet + 1;
        Flags := Flags + {At(cell)};
      } else {
        flagsSet := flagsSet - 1;
        Flags := Flags - {At(cell)};
      }
      LayoutKept();
    }

    /** `openCell`: opens a cell. A mine loses the game; a cell with no mines
        around opens its neighbours in turn; afterwards, if no safe square is
        left closed, the game is won. Ignored once the game has stopped and on a
        cell already opened or flagged. */
    method OpenCell(cell: Cell)
      requires Valid() && cell in Repr
      modifies this`running, this`cellsToOpen, this`wins, this`losses
      modifies this`Open, this`Flags, this`ToOpen, Repr`isOpened, Repr`isFlagged
      decreases Squares - Open, 3
      ensures Valid() && old(Open) <= Open && old(wins) <= wins
      ensures old(!running || At(cell) in Open + Flags) ==> unchanged(this, Repr)
      ensures !old(!running || At(cell) in Open + Flags) ==> At(cell) in Open
      // A mine: the game is lost and every mine without a flag is shown.
      ensures !old(!running || At(cell) in Open + Flags) && At(cell) in Mines ==>
        !running && losses == 1 && cellsToOpen == old(cellsToOpen) &&
        Flags == old(Flags) && Open == old(Open) + (Mines - Flags)
      // A safe cell: no mine is opened, and the game stops exactly when no safe square is left closed.
      ensures !old(!running || At(cell) in Open + Flags) && At(cell) !in Mines ==>
        losses == 0 && cellsToOpen < old(cellsToOpen) && (running <==> cellsToOpen != 0)
      // Won: every square not opened is flagged.
      ensures !old(!running || At(cell) in Open + Flags) && At(cell) !in Mines && !running ==>
        wins >= 1 && Flags == old(Flags) + (Squares - Open)
      // Still running: flags are untouched and the cascade left nothing to do
      // at any square this move opened.
      ensures !old(!running || At(cell) in Open + Flags) && At(cell) !in Mines && running ==>
        Flags == old(Flags) && Settled(Mines, Squares, Open - old(Open), Open + Flags)
      // A cascade that wins the game on a square other than `cell` invokes
      // `onWin` there, and then once more here.
      ensures (!old(!running || At(cell) in Open + Flags) && At(cell) !in Mines &&
               cell.bombsNear == 0 && old(cellsToOpen) >= 2 && !running) ==> wins >= 2
      // A safe cell opens nothing outside the flood fill from it; with a mine
      // around, it opens itself alone.
      ensures At(cell) !in Mines ==> Confined(Mines, Squares, Open, At(cell), old(Open), old(Open) + old(Flags))
      ensures !old(!running || At(cell) in Open + Flags) && At(cell) !in Mines && cell.bombsNear > 0 ==>
        Open == old(Open) + {At(cell)} && cellsToOpen == old(cellsToOpen) - 1
    {
      if !running || cell.isOpened || cell.isFlagged {
        return;
      }
      Play(cell);
    }

    /** The body of `openCell` for a closed cell in a running game. */
    method Play(cell: Cell)
      requires Valid() && running && cell in Repr && !cell.isOpened && !cell.isFlagged
      modifies this`running, this`cellsToOpen, this`wins, this`losses
      modifies this`Open, this`Flags, this`ToOpen, Repr`isOpened, Repr`isFlagged
      decreases Squares - Open, 2
      ensures Valid() && old(Open) <= Open && At(cell) in Open
      ensures At(cell) in Mines ==>
        !running && losses == 1 && cellsToOpen == old(cellsToOpen) &&
        Flags == old(Flags) && Open == old(Open) + (Mines - Flags)
      ensures At(cell) !in Mines ==>
        losses == 0 && cellsToOpen < old(cellsToOpen) && (running <==> cellsToOpen != 0)
      ensures At(cell) !in Mines && !running ==> wins >= 1 && Flags == old(Flags) + (Squares - Open)
      ensures At(cell) !in Mines && running ==>
        Flags == old(Flags) && Settled(Mines, Squares, Open - old(Open), Open + Flags)
      ensures At(cell) !in Mines && cell.bombsNear == 0 && old(cellsToOpen) >= 2 && !running ==> wins >= 2
      ensures At(cell) !in Mines ==> Confined(Mines, Squares, Open, At(cell), old(Open), old(Open) + old(Flags))
      ensures At(cell) !in Mines && cell.bombsNear > 0 ==>
        Open == old(Open) + {At(cell)} && cellsToOpen == old(cellsToOpen) - 1
    {
      if cell.hasBomb {
        Explode(cell);
        return;
      }
      Spread(cell);
      if cellsToOpen == 0 {
        Win();
      }
    }

    /** A safe cell is opened and, when no mine is around it, its neighbours in
        turn; the win check that follows is left to `Play`. */
    method Spread(cell: Cell)
      requires Valid() && running && cell in Repr && !cell.hasBomb && !cell.isOpened && !cell.isFlagged
      modifies this`running, this`cellsToOpen, this`wins, this`losses
      modifies this`Open, this`Flags, this`ToOpen, Repr`isOpened, Repr`isFlagged
      decreases Squares - Open, 1
      ensures At(cell) in Open && cell.bombsNear == old(cell.bombsNear)
      ensures Cascading([], 0, old(Open), old(Flags), old(cellsToOpen) - 1)
      ensures Confined(Mines, Squares, Open, At(cell), old(Open), old(Open) + old(Flags))
      ensures cell.bombsNear > 0 ==> Open == old(Open) + {At(cell)} && cellsToOpen == old(cellsToOpen) - 1
    {
      Reveal(cell);
      if cell.bombsNear == 0 {
        var ns := NeighborsOf(cells, Repr, cell.row, cell.column);
        NoMineAround(Repr, Mines, cell, ns);
        ghost var near := cell.bombsNear;
        OpenNeighbours(cell, ns, old(Open));
        assert cell.bombsNear == near;
      } else {
        assert Open - old(Open) == {At(cell)};
      }
    }

    /** A mined cell is opened, and the game is lost. */
    method Explode(cell: Cell)
      requires Valid() && running && cell in Repr && cell.hasBomb && !cell.isOpened && !cell.isFlagged
      modifies this`running, this`losses, this`Open, Repr`isOpened
      ensures Valid() && !running && losses == 1
      ensures Open == old(Open) + (Mines - Flags) && At(cell) in Open
    {
      cell.isOpened := true;
      Open := Open + {At(cell)};
      Lose();
    }

    /** A safe cell is opened, and one safe square fewer is left to open. */
    method Reveal(cell: Cell)
      requires Valid() && running && cell in Repr && !cell.hasBomb && !cell.isOpened && !cell.isFlagged
      modifies this`cellsToOpen, this`Open, this`ToOpen, cell`isOpened
      ensures Valid() && cell.isOpened
      ensures Open == old(Open) + {At(cell)} && cellsToOpen == old(cellsToOpen) - 1
    {
      assert At(cell) in ToOpen && At(cell) !in Flags && At(cell) !in Mines;
      cell.isOpened := true;
      Open := Open + {At(cell)};
      ToOpen := ToOpen - {At(cell)};
      cellsToOpen := cellsToOpen - 1;
      LayoutKept();
    }

    /** The state of the cascade after `openCell` on the first `i` cells of
        `ns`: `reached`, `marked` and `budget` are the opened squares, the
        flagged squares and `cellsToOpen` when it began. */
    ghost predicate Cascading(ns: seq<Cell>, i: int, reached: set<(int, int)>, marked: set<(int, int)>, budget: int)
      reads this, cells, Repr
    {
      Valid() && reached <= Open && losses == 0 && cellsToOpen <= budget &&
      (running && cellsToOpen == 0 ==> budget == 0) &&
      (!running ==> cellsToOpen == 0 && wins >= 1 && Flags == marked + (Squares - Open)) &&
      (running ==>
         Flags == marked &&
         (forall j :: 0 <= j < i && j < |ns| ==> At(ns[j]) in Open + Flags) &&
         Settled(Mines, Squares, Open - reached, Open + Flags))
    }

    /** The cascade of `openCell`: opens each neighbour of `cell` in turn.
        `start` holds the squares that were opened before `cell`. */
    method OpenNeighbours(cell: Cell, ns: seq<Cell>, ghost start: set<(int, int)>)
      requires Valid() && running
      requires cell in Repr && At(cell) !in start && Open == start + {At(cell)}
      requires Around(Mines, cell.row, cell.column) == {}
      requires forall x :: x in ns ==> x in Repr && At(x) !in Mines
      requires forall x :: x in Repr ==> multiset(ns)[x] == Ind(Adjacent(cell.row, cell.column, x.row, x.column))
      modifies this`running, this`cellsToOpen, this`wins, this`losses
      modifies this`Open, this`Flags, this`ToOpen, Repr`isOpened, Repr`isFlagged
      decreases Squares - start, 0
      ensures Valid() && old(Open) <= Open && losses == 0 && cellsToOpen <= old(cellsToOpen)
      ensures running && cellsToOpen == 0 ==> old(cellsToOpen) == 0
      ensures !running ==> cellsToOpen == 0 && wins >= 1 && Flags == old(Flags) + (Squares - Open)
      ensures running ==> Flags == old(Flags) && Settled(Mines, Squares, Open - start, Open + Flags)
      // Nothing outside the flood fill from `cell` is opened.
      ensures Confined(Mines, Squares, Open, At(cell), start, start + old(Flags))
    {
      NeighboursAround(cells, Repr, Squares, cell.row, cell.column, ns);
      for i := 0 to |ns|
        invariant Cascading(ns, i, old(Open), old(Flags), old(cellsToOpen))
        invariant Confined(Mines, Squares, Open, At(cell), start, start + old(Flags))
      {
        Shrinks(Squares, start, Open, At(cell));
        OpenNext(ns, i, At(cell), start, old(Open), old(Flags), old(cellsToOpen));
      }
      if running {
        NeighboursCover(cells, Repr, Squares, cell.row, cell.column, ns, Open + Flags);
        SettledAdd(Mines, Squares, start, old(Open), Open, At(cell), Open + Flags);
      }
    }

    /** One step of the cascade from square `c`: `openCell` on its safe neighbour
        `ns[i]`, which stays in the flood fill from `c`. */
    method OpenNext(ns: seq<Cell>, i: int, ghost c: (int, int), ghost start: set<(int, int)>,
                    ghost reached: set<(int, int)>, ghost marked: set<(int, int)>, ghost budget: int)
      requires 0 <= i < |ns| && ns[i] in Repr && Cascading(ns, i, reached, marked, budget) && At(ns[i]) !in Mines
      requires Around(Mines, c.0, c.1) == {} && At(ns[i]) in Around(Squares, c.0, c.1) && start <= reached
      requires Confined(Mines, Squares, Open, c, start, start + marked)
      modifies this`running, this`cellsToOpen, this`wins, this`losses
      modifies this`Open, this`Flags, this`ToOpen, Repr`isOpened, Repr`isFlagged
      decreases Squares - Open, 4
      ensures Cascading(ns, i + 1, reached, marked, budget)
      ensures Confined(Mines, Squares, Open, c, start, start + marked)
    {
      OpenCell(ns[i]);
      if running {
        SettledJoin(Mines, Squares, reached, old(Open), Open, old(Open) + Flags, Open + Flags);
      }
      RegionStep(Mines, Squares, c, At(ns[i]), start, start + marked, old(Open), old(Open) + old(Flags), Open);
    }
  }

  /** On a 1 by 2 board without mines, opening the left cell opens the right
      one in the cascade, which wins the game; the left cell's own check then
      finds no safe square closed and wins it again: `onWin` is invoked twice. */
  method TwoWins() returns (game: GameController)
    ensures game.Valid() && !game.running && game.wins >= 2
  {
    game := new GameController(GameSettings(1, 2, 0), []);
    assert game.Mines == {};
    var left := game.CellAt(0, 0);
    assert (0, 1) in game.Squares && (0, 1) in Around(game.Squares, 0, 0);
    assert Around(game.Mines, 0, 0) == {};
    game.OpenCell(left);
  }
}
