/**
 * The rules engine of GameController.kt: one game of Minesweeper on a grid of
 * cells that the controller updates in place. `openCell` and `toggleFlag` are
 * the player's moves, `onTimeTick` drives the clock, and `win`/`lose` end the
 * game. The random mine placement is replaced by the sequence of accepted
 * draws, and the `onWin`/`onLose` callbacks by ghost counters of how often
 * each was invoked.
 */
module Controller {
  import opened Board
  import opened Rendering

  /** Kotlin's `Long` division by 1000, which truncates toward zero. */
  function ElapsedSeconds(millis: int): (s: int)
    ensures 0 <= millis ==> 0 <= s && s * 1000 <= millis < s * 1000 + 1000
    ensures millis < 0 ==> s <= 0 && s * 1000 - 1000 < millis <= s * 1000
  {
    if millis >= 0 then millis / 1000 else -((-millis) / 1000)
  }

  // ---------------------------------------------------------------------------
  // Mine placement from a list

  /** The entry is a square of a `rows` by `columns` board. */
  predicate OnBoard(p: (int, int), rows: int, columns: int) {
    0 <= p.0 < rows && 0 <= p.1 < columns
  }

  /** The squares of the board that `mines` lists. */
  function ListedSquares(mines: seq<(int, int)>, rows: int, columns: int): set<(int, int)> {
    set p | p in mines && OnBoard(p, rows, columns)
  }

  lemma ListedSquaresGrow(mines: seq<(int, int)>, i: int, rows: int, columns: int)
    requires 0 <= i < |mines|
    ensures ListedSquares(mines[..i + 1], rows, columns)
         == ListedSquares(mines[..i], rows, columns)
          + (if OnBoard(mines[i], rows, columns) then {mines[i]} else {})
  {
    assert mines[..i + 1] == mines[..i] + [mines[i]];
  }

  /** Every entry of `mines` is a distinct square of the board. */
  predicate DistinctOnBoard(mines: seq<(int, int)>, rows: int, columns: int) {
    (forall i :: 0 <= i < |mines| ==> OnBoard(mines[i], rows, columns)) &&
    (forall i, j :: 0 <= i < j < |mines| ==> mines[i] != mines[j])
  }

  /** A list of distinct squares of the board names as many squares as it has entries. */
  lemma {:induction false} ListedSquaresCount(mines: seq<(int, int)>, rows: int, columns: int)
    requires DistinctOnBoard(mines, rows, columns)
    ensures |ListedSquares(mines, rows, columns)| == |mines|
  {
    if mines != [] {
      var n := |mines| - 1;
      assert DistinctOnBoard(mines[..n], rows, columns);
      ListedSquaresCount(mines[..n], rows, columns);
      ListedSquaresGrow(mines, n, rows, columns);
      assert mines[..n + 1] == mines;
      assert mines[n] !in ListedSquares(mines[..n], rows, columns);
    }
  }

  /** What the explicit-mine constructor leaves in `bombsNear` of (row, column):
      one per entry of `mines` on the board and around the square, repeats included. */
  function MinesAround(mines: seq<(int, int)>, rows: int, columns: int, row: int, column: int): nat
  {
    if mines == [] then 0
    else
      var p := mines[|mines| - 1];
      MinesAround(mines[..|mines| - 1], rows, columns, row, column)
        + Ind(OnBoard(p, rows, columns) && Adjacent(p.0, p.1, row, column))
  }

  /** For a list of distinct squares of the board, the explicit-mine count is
      the true number of mines around the square. */
  lemma {:induction false} MinesAroundExact(mines: seq<(int, int)>, rows: int, columns: int, row: int, column: int)
    requires DistinctOnBoard(mines, rows, columns)
    ensures MinesAround(mines, rows, columns, row, column)
         == |Around(ListedSquares(mines, rows, columns), row, column)|
  {
    if mines != [] {
      var n := |mines| - 1;
      var front := mines[..n];
      assert DistinctOnBoard(front, rows, columns);
      MinesAroundExact(front, rows, columns, row, column);
      assert mines[..n + 1] == mines;
      ListedSquaresGrow(mines, n, rows, columns);
      assert mines[n] !in ListedSquares(front, rows, columns);
      AroundAdd(ListedSquares(front, rows, columns), mines[n], row, column);
      assert Adjacent(mines[n].0, mines[n].1, row, column) == Adjacent(row, column, mines[n].0, mines[n].1);
    }
  }

  /** The mine-placing loop of the explicit-mine constructor: for each entry,
      the cell at it (if any) gets a mine and its neighbours' counts go up. */
  method PlaceListed(cells: array2<Cell>, ghost repr: set<Cell>, mines: seq<(int, int)>)
    requires WellFormed(cells, repr)
    requires forall x :: x in repr ==> !x.hasBomb && x.bombsNear == 0 && !x.isOpened && !x.isFlagged
    modifies repr`hasBomb, repr`bombsNear
    ensures forall x :: x in repr ==> !x.isOpened && !x.isFlagged
    ensures forall x :: x in repr ==> (x.hasBomb <==> At(x) in mines)
    ensures forall x :: x in repr ==>
      x.bombsNear == MinesAround(mines, cells.Length0, cells.Length1, x.row, x.column)
  {
    for i := 0 to |mines|
      invariant forall x :: x in repr ==> !x.isOpened && !x.isFlagged
      invariant forall x :: x in repr ==> (x.hasBomb <==> At(x) in mines[..i])
      invariant forall x :: x in repr ==>
        x.bombsNear == MinesAround(mines[..i], cells.Length0, cells.Length1, x.row, x.column)
    {
      assert mines[..i + 1] == mines[..i] + [mines[i]];
      assert mines[..i + 1][..i] == mines[..i];
      var cell := Board.CellAt(cells, repr, mines[i].0, mines[i].1);
      if cell != null {
        PlaceBomb(cells, repr, cell, {});
      }
    }
    assert mines[..|mines|] == mines;
  }

  // ---------------------------------------------------------------------------
  // The controller

  /** How character `ch` of the text shows square `p`: '*' for a mine, '!' for a
      flag on a safe square, ' ' for a safe unflagged square with no mine around,
      and otherwise the digit of the number of mines around it. */
  ghost predicate Shows(ch: char, p: (int, int), mines: set<(int, int)>, flags: set<(int, int)>) {
    (ch == '*' <==> p in mines) &&
    (ch == '!' <==> p in flags && p !in mines) &&
    (ch == ' ' <==> p !in mines && p !in flags && Around(mines, p.0, p.1) == {}) &&
    (p !in mines && p !in flags && Around(mines, p.0, p.1) != {} ==>
      ch as int - '0' as int == |Around(mines, p.0, p.1)|)
  }

  /** A cell whose marks agree with `mines` and `flags` shows its square. */
  lemma GlyphShows(x: Cell, mines: set<(int, int)>, flags: set<(int, int)>)
    requires x.hasBomb <==> At(x) in mines
    requires x.isFlagged <==> At(x) in flags
    requires x.bombsNear == |Around(mines, x.row, x.column)| < 10
    ensures Shows(Glyph(x)[0], At(x), mines, flags)
  {
    if !x.hasBomb && !x.isFlagged && x.bombsNear > 0 {
      SmallDecimal(x.bombsNear);
    }
  }

  /** One game, as GameController.kt plays it. */
  class GameController {
    const rows: int
    const columns: int
    const bombs: int
    var running: bool
    var finished: bool
    var flagsSet: int
    var cellsToOpen: int
    var seconds: int
    var time: int
    var startTime: int
    const cells: array2<Cell>
    /** All cells of the grid, and their squares. */
    ghost const Repr: set<Cell>
    ghost const Squares: set<(int, int)>
    /** The mined, the opened and the flagged squares. */
    ghost var Mines: set<(int, int)>
    ghost var Open: set<(int, int)>
    ghost var Flags: set<(int, int)>
    /** How often `onWin` and `onLose` have been invoked. */
    ghost var wins: nat
    ghost var losses: nat
    /** The safe squares not opened yet. */
    ghost var ToOpen: set<(int, int)>

    /** The grid is `rows` by `columns` and holds `Repr`, each cell at its square. */
    ghost predicate Shaped()
      reads cells
    {
      cells.Length0 == rows && cells.Length1 == columns && WellFormed(cells, Repr) &&
      IsGrid(Squares, rows, columns) && |Squares| == rows * columns
    }

    /** The mine layout: fixed once the game is set up. */
    ghost predicate Layout()
      reads cells, this`Mines, Repr`hasBomb, Repr`bombsNear
    {
      Shaped() && Mines <= Squares && |Mines| == bombs &&
      MinesMarked(Repr, Mines) && CountsExact(Repr, Mines)
    }

    /** `Open` and `Flags` are the opened and the flagged squares. */
    ghost predicate Marks()
      reads this`Open, this`Flags, Repr`isOpened, Repr`isFlagged
    {
      Open <= Squares && Flags <= Squares &&
      (forall x {:trigger x.isOpened} :: x in Repr ==> (x.isOpened <==> At(x) in Open)) &&
      (forall x {:trigger x.isFlagged} :: x in Repr ==> (x.isFlagged <==> At(x) in Flags))
    }

    /** `cellsToOpen` counts the safe squares not opened yet. */
    ghost predicate Tally()
      reads this`Mines, this`Open, this`ToOpen, this`cellsToOpen
    {
      (forall p {:trigger p in ToOpen} :: p in ToOpen <==> p in Squares && p !in Mines && p !in Open) &&
      cellsToOpen == |ToOpen|
    }

    /** How the counters and the game's phase relate to the marked squares. */
    ghost predicate Progress()
      reads this`Mines, this`Open, this`Flags, this`ToOpen, this`cellsToOpen, this`flagsSet
      reads this`running, this`finished, this`wins, this`losses
    {
      Open !! Flags && Tally() &&
      (wins == 0 ==> flagsSet == |Flags|) &&
      !(running && finished) &&
      wins + losses == (if finished then 1 else 0) &&
      (losses == 0 ==> Open !! Mines)
    }

    /** A running game shows the whole seconds since it started. */
    ghost predicate Clock()
      reads this`running, this`seconds, this`time, this`startTime
    {
      running ==> seconds == ElapsedSeconds(time - startTime)
    }

    /** What holds between any two moves of the game. */
    ghost predicate Valid()
      reads this, cells, Repr
    {
      Layout() && Marks() && Progress() && Clock()
    }

    /** A new game. `picks` are the draws of `Random.nextInt(rows * columns)` that
        `putBomb` accepted, one per mine, each naming a square without a mine yet. */
    constructor (options: GameSettings, picks: seq<int>)
      requires options.rows >= 0 && options.columns >= 0 && |picks| == options.mines
      requires forall i :: 0 <= i < |picks| ==> 0 <= picks[i] < options.rows * options.columns
      requires forall i, j :: 0 <= i < j < |picks| ==> picks[i] != picks[j]
      ensures Valid() && fresh(cells) && fresh(Repr)
      ensures rows == options.rows && columns == options.columns && bombs == options.mines
      ensures !running && !finished && flagsSet == 0 && seconds == 0 && time == 0 && startTime == 0
      ensures wins == 0 && losses == 0 && cellsToOpen == rows * columns - bombs
      ensures Open == {} && Flags == {}
      ensures columns > 0 ==> Mines == PickedSquares(picks, columns)
    {
      var grid;
      ghost var all;
      grid, all := NewCells(options.rows, options.columns);
      ghost var squares := GridSquares(options.rows, options.columns);
      SquaresExact(options.rows, options.columns);
      ghost var placed := PlaceDraws(grid, all, squares, picks);
      DiffCard(squares, placed);
      rows, columns, bombs := options.rows, options.columns, options.mines;
      running, finished, flagsSet := false, false, 0;
      cellsToOpen := options.rows * options.columns - options.mines;
      seconds, time, startTime := 0, 0, 0;
      cells, Repr, Squares := grid, all, squares;
      Mines, Open, Flags, ToOpen := placed, {}, {}, squares - placed;
      wins, losses := 0, 0;
    }

    /** A game on a given layout. The delegated constructor first places
        `|mines|` random mines, then every cell is cleared, so only the listed
        squares end up mined; entries off the board are skipped and a repeated
        entry raises the counts around it once per repetition. */
    constructor WithMines(rows: int, columns: int, mines: seq<(int, int)>)
      requires rows >= 0 && columns >= 0 && |mines| <= rows * columns
      ensures Shaped() && fresh(cells) && fresh(Repr)
      ensures this.rows == rows && this.columns == columns && bombs == |mines|
      ensures !running && !finished && flagsSet == 0 && seconds == 0 && time == 0 && startTime == 0
      ensures wins == 0 && losses == 0 && cellsToOpen == rows * columns - |mines|
      ensures forall x :: x in Repr ==> !x.isOpened && !x.isFlagged
      ensures forall x :: x in Repr ==> (x.hasBomb <==> At(x) in mines)
      ensures forall x :: x in Repr ==> x.bombsNear == MinesAround(mines, rows, columns, x.row, x.column)
      ensures DistinctOnBoard(mines, rows, columns) ==>
        Valid() && Mines == ListedSquares(mines, rows, columns) && Open == {} && Flags == {}
    {
      var grid;
      ghost var all;
      grid, all := NewCells(rows, columns);
      ghost var squares := GridSquares(rows, columns);
      SquaresExact(rows, columns);
      PlaceListed(grid, all, mines);
      ghost var listed := ListedSquares(mines, rows, columns);
      if DistinctOnBoard(mines, rows, columns) {
        ListedSquaresCount(mines, rows, columns);
        DiffCard(squares, listed);
        forall x | x in all
          ensures x.bombsNear == |Around(listed, x.row, x.column)|
        {
          MinesAroundExact(mines, rows, columns, x.row, x.column);
        }
      }
      this.rows, this.columns, bombs := rows, columns, |mines|;
      running, finished, flagsSet := false, false, 0;
      cellsToOpen := rows * columns - |mines|;
      seconds, time, startTime := 0, 0, 0;
      cells, Repr, Squares := grid, all, squares;
      Mines, Open, Flags, ToOpen := listed, {}, {}, squares - listed;
      wins, losses := 0, 0;
    }

    /** `cellAt`: the cell at (row, column), or null off the board. */
    function CellAt(row: int, column: int): (cell: Cell?)
      requires Shaped()
      reads cells
      ensures cell != null <==> OnBoard((row, column), rows, columns)
      ensures cell != null ==> cell in Repr && At(cell) == (row, column)
    {
      Board.CellAt(cells, Repr, row, column)
    }

    /** `startGame`: starts the clock, unless the game is over. */
    method StartGame()
      requires Valid()
      modifies this`seconds, this`startTime, this`running
      ensures Valid()
      ensures old(finished) ==> unchanged(this)
      ensures !old(finished) ==> running && seconds == 0 && startTime == time
    {
      if !finished {
        seconds := 0;
        startTime := time;
        running := true;
      }
    }

    /** `endGame`. */
    method EndGame()
      modifies this`finished, this`running
      ensures finished && !running
    {
      finished := true;
      running := false;
    }

    /** The mine layout survives any step that leaves the mines, `hasBomb` and
        `bombsNear` alone. */
    twostate lemma LayoutKept()
      requires old(Layout()) && Mines == old(Mines) && unchanged(cells)
      requires forall x :: x in Repr ==> x.hasBomb == old(x.hasBomb) && x.bombsNear == old(x.bombsNear)
      ensures Layout()
    {
    }

    /** Ending a running game won, with every cell not opened flagged, keeps the invariant. */
    twostate lemma WonValid()
      requires old(Valid()) && old(running) && old(cellsToOpen) == 0 && unchanged(cells)
      requires Mines == old(Mines) && Open == old(Open) && ToOpen == old(ToOpen) && cellsToOpen == old(cellsToOpen)
      requires losses == old(losses) && wins == old(wins) + 1 && finished && !running
      requires Flags == old(Flags) + (Squares - Open)
      requires forall x :: x in Repr ==>
        x.isOpened == old(x.isOpened) && x.hasBomb == old(x.hasBomb) && x.bombsNear == old(x.bombsNear) &&
        x.isFlagged == (old(x.isFlagged) || !x.isOpened)
      ensures Valid()
    {
    }

    /** `win`: ends the game won, and every square not opened gets a flag. */
    method Win()
      requires Valid() && running && cellsToOpen == 0
      modifies this`finished, this`running, this`wins, this`Flags, Repr`isFlagged
      ensures Valid() && finished && !running && wins == 1 && flagsSet == old(flagsSet)
      ensures Flags == old(Flags) + (Squares - Open)
    {
      // `endGame` and `flagAllBombs` write disjoint fields, so their order is immaterial.
      Flags, wins := Flags + (Squares - Open), wins + 1;
      FlagAllBombs(cells, Repr);
      EndGame();
      WonValid();
    }

    /** `lose`: ends the game lost, and every mine without a flag is shown. */
    method Lose()
      requires Layout() && Marks() && running && !finished && wins == 0 && losses == 0
      requires Tally() && Open !! Flags && flagsSet == |Flags|
      modifies this`finished, this`running, this`losses, this`Open, Repr`isOpened
      ensures Valid() && finished && !running && losses == 1
      ensures Open == old(Open) + (Mines - Flags)
    {
      EndGame();
      OpenAllBombs(cells, Repr);
      Open := Open + (Mines - Flags);
      losses := losses + 1;
    }

    /** `onTimeTick`: records the time; a running game shows the whole seconds since it started. */
    method OnTimeTick(timeMillis: int)
      requires Valid()
      modifies this`time, this`seconds
      ensures Valid() && time == timeMillis
      ensures seconds == if running then ElapsedSeconds(timeMillis - startTime) else old(seconds)
    {
      time := timeMillis;
      if running {
        seconds := ElapsedSeconds(time - startTime);
      }
    }

    /** `toggleFlag`: puts a flag on a closed cell or takes it away; the first move
        starts the clock. Ignored on a finished game and on an opened cell. */
    method ToggleFlag(cell: Cell)
      requires Valid() && cell in Repr
      modifies this`running, this`seconds, this`startTime, this`flagsSet, this`Flags, cell`isFlagged
      ensures Valid()
      ensures old(finished || cell.isOpened) ==> unchanged(this, cell)
      ensures !old(finished || cell.isOpened) ==>
        running && cell.isFlagged == !old(cell.isFlagged) &&
        Flags == (if cell.isFlagged then old(Flags) + {At(cell)} else old(Flags) - {At(cell)}) &&
        flagsSet == old(flagsSet) + (if cell.isFlagged then 1 else -1) &&
        startTime == (if old(running) then old(startTime) else old(time)) &&
        seconds == (if old(running) then old(seconds) else 0)
    {
      if finished || cell.isOpened {
        return;
      }
      if !running {
        StartGame();
      }
      Flip(cell);
    }

    /** Toggling the same cell twice restores its flag, the flagged squares and `flagsSet`. */
    method ToggleTwice(cell: Cell)
      requires Valid() && cell in Repr
      modifies this`running, this`seconds, this`startTime, this`flagsSet, this`Flags, cell`isFlagged
      ensures Valid() && cell.isFlagged == old(cell.isFlagged)
      ensures Flags == old(Flags) && flagsSet == old(flagsSet)
    {
      ToggleFlag(cell);
      ToggleFlag(cell);
    }

    /** No cell is ever both opened and flagged. */
    lemma OpenedNotFlagged()
      requires Valid()
      ensures forall x :: x in Repr ==> !(x.isOpened && x.isFlagged)
    {
    }

    /** The body of `toggleFlag` once the game runs: the flag goes on or off and
        `flagsSet` follows it. */
    method Flip(cell: Cell)
      requires Valid() && running && cell in Repr && !cell.isOpened
      modifies this`flagsSet, this`Flags, cell`isFlagged
      ensures Valid() && cell.isFlagged == !old(cell.isFlagged)
      ensures Flags == (if cell.isFlagged then old(Flags) + {At(cell)} else old(Flags) - {At(cell)})
      ensures flagsSet == old(flagsSet) + (if cell.isFlagged then 1 else -1)
    {
      cell.isFlagged := !cell.isFlagged;
      if cell.isFlagged {
        flagsSet := flagsSet + 1;
        Flags := Flags + {At(cell)};
      } else {
        flagsSet := flagsSet - 1;
        Flags := Flags - {At(cell)};
      }
      LayoutKept();
    }

    /** `openCell`: opens a cell. A mine loses the game; the last safe cell wins
        it; a cell with no mines around opens its neighbours in turn. The first
        move starts the clock. */
    method OpenCell(cell: Cell)
      requires Valid() && cell in Repr
      modifies this`running, this`finished, this`cellsToOpen, this`seconds, this`startTime
      modifies this`wins, this`losses, this`Open, this`Flags, this`ToOpen, Repr`isOpened, Repr`isFlagged
      decreases Squares - Open, 3
      ensures Valid() && old(Open) <= Open
      // `onWin` and `onLose` are invoked at most once, together.
      ensures wins + losses <= 1
      // Ignored on a finished game and on a cell already opened or flagged.
      ensures old(finished || At(cell) in Open + Flags) ==> unchanged(this, Repr)
      // Otherwise the cell is opened, and the clock runs from the first move on.
      ensures !old(finished || At(cell) in Open + Flags) ==>
        At(cell) in Open &&
        startTime == (if old(running) then old(startTime) else old(time)) &&
        seconds == (if old(running) then old(seconds) else 0)
      // A mine: the game is lost and every mine without a flag is shown.
      ensures !old(finished || At(cell) in Open + Flags) && At(cell) in Mines ==>
        finished && losses == 1 && cellsToOpen == old(cellsToOpen) &&
        Flags == old(Flags) && Open == old(Open) + (Mines - Flags)
      // A safe cell: no mine is opened, and the game ends exactly when no safe square is left closed.
      ensures !old(finished || At(cell) in Open + Flags) && At(cell) !in Mines ==>
        losses == 0 && cellsToOpen < old(cellsToOpen) && (finished <==> cellsToOpen == 0)
      // Won: every square not opened is flagged.
      ensures !old(finished || At(cell) in Open + Flags) && At(cell) !in Mines && finished ==>
        wins == 1 && Flags == old(Flags) + (Squares - Open)
      // Still running: flags are untouched and the cascade left nothing to do
      // at any square this move opened.
      ensures !old(finished || At(cell) in Open + Flags) && At(cell) !in Mines && !finished ==>
        running && Flags == old(Flags) && Settled(Mines, Squares, Open - old(Open), Open + Flags)
      // A safe cell opens nothing outside the flood fill from it; with a mine
      // around, it opens itself alone.
      ensures At(cell) !in Mines ==> Confined(Mines, Squares, Open, At(cell), old(Open), old(Open) + old(Flags))
      ensures !old(finished || At(cell) in Open + Flags) && At(cell) !in Mines && cell.bombsNear > 0 ==>
        Open == old(Open) + {At(cell)} && cellsToOpen == old(cellsToOpen) - 1
    {
      if finished || cell.isOpened || cell.isFlagged {
        return;
      }
      if !running {
        StartGame();
      }
      Play(cell);
    }

    /** The body of `openCell` for a closed cell once the game runs. */
    method Play(cell: Cell)
      requires Valid() && running && cell in Repr && !cell.isOpened && !cell.isFlagged
      modifies this`running, this`finished, this`cellsToOpen, this`seconds, this`startTime
      modifies this`wins, this`losses, this`Open, this`Flags, this`ToOpen, Repr`isOpened, Repr`isFlagged
      decreases Squares - Open, 2
      ensures Valid() && old(Open) <= Open && At(cell) in Open
      ensures startTime == old(startTime) && seconds == old(seconds)
      ensures At(cell) in Mines ==>
        finished && losses == 1 && cellsToOpen == old(cellsToOpen) &&
        Flags == old(Flags) && Open == old(Open) + (Mines - Flags)
      ensures At(cell) !in Mines ==>
        losses == 0 && cellsToOpen < old(cellsToOpen) && (finished <==> cellsToOpen == 0)
      ensures At(cell) !in Mines && finished ==> wins == 1 && Flags == old(Flags) + (Squares - Open)
      ensures At(cell) !in Mines && !finished ==>
        running && Flags == old(Flags) && Settled(Mines, Squares, Open - old(Open), Open + Flags)
      ensures At(cell) !in Mines ==> Confined(Mines, Squares, Open, At(cell), old(Open), old(Open) + old(Flags))
      ensures At(cell) !in Mines && cell.bombsNear > 0 ==>
        Open == old(Open) + {At(cell)} && cellsToOpen == old(cellsToOpen) - 1
    {
      var over := Uncover(cell);
      assert startTime == old(startTime) && seconds == old(seconds);
      if !over {
        Spread(cell, old(Open));
      }
    }

    /** The rest of `openCell` once a safe cell is opened and the game goes on:
        with no mine around the cell, its neighbours are opened in turn. */
    method Spread(cell: Cell, ghost start: set<(int, int)>)
      requires Valid() && running && cellsToOpen != 0
      requires cell in Repr && At(cell) !in Mines && At(cell) !in start && Open == start + {At(cell)}
      modifies this`running, this`finished, this`cellsToOpen, this`seconds, this`startTime
      modifies this`wins, this`losses, this`Open, this`Flags, this`ToOpen, Repr`isOpened, Repr`isFlagged
      decreases Squares - start, 1
      ensures Valid() && old(Open) <= Open && losses == 0
      ensures startTime == old(startTime) && seconds == old(seconds) && cellsToOpen <= old(cellsToOpen)
      ensures finished <==> cellsToOpen == 0
      ensures finished ==> wins == 1 && Flags == old(Flags) + (Squares - Open)
      ensures !finished ==>
        running && Flags == old(Flags) && Settled(Mines, Squares, Open - start, Open + Flags)
      ensures Confined(Mines, Squares, Open, At(cell), start, start + old(Flags))
      ensures cell.bombsNear > 0 ==> Open == old(Open) && cellsToOpen == old(cellsToOpen)
    {
      if cell.bombsNear == 0 {
        var ns := NeighborsOf(cells, Repr, cell.row, cell.column);
        NoMineAround(Repr, Mines, cell, ns);
        OpenNeighbours(cell, ns, start);
      } else {
        assert Open - start == {At(cell)};
      }
    }

    /** The body of `openCell` for a closed cell in a running game, short of the
        cascade: the cell is opened, then a mine loses the game and the last safe
        cell wins it. `over` tells whether the game ended. */
    method Uncover(cell: Cell) returns (over: bool)
      requires Valid() && running && cell in Repr && !cell.isOpened && !cell.isFlagged
      modifies this`running, this`finished, this`cellsToOpen
      modifies this`wins, this`losses, this`Open, this`Flags, this`ToOpen, Repr`isOpened, Repr`isFlagged
      ensures Valid() && over == finished && At(cell) in Open
      ensures At(cell) in Mines ==>
        over && losses == 1 && cellsToOpen == old(cellsToOpen) &&
        Flags == old(Flags) && Open == old(Open) + (Mines - Flags)
      ensures At(cell) !in Mines ==>
        losses == 0 && cellsToOpen == old(cellsToOpen) - 1 && (over <==> cellsToOpen == 0) &&
        Open == old(Open) + {At(cell)}
      ensures At(cell) !in Mines && over ==> wins == 1 && Flags == old(Flags) + (Squares - Open)
      ensures !over ==> running && Flags == old(Flags)
    {
      if cell.hasBomb {
        Explode(cell);
        return true;
      }
      Reveal(cell);
      if cellsToOpen == 0 {
        Win();
        return true;
      }
      return false;
    }

    /** A mined cell is opened, and the game is lost. */
    method Explode(cell: Cell)
      requires Valid() && running && cell in Repr && cell.hasBomb && !cell.isOpened && !cell.isFlagged
      modifies this`running, this`finished, this`losses, this`Open, Repr`isOpened
      ensures Valid() && finished && !running && losses == 1
      ensures Open == old(Open) + (Mines - Flags) && At(cell) in Open
    {
      cell.isOpened := true;
      Open := Open + {At(cell)};
      Lose();
    }

    /** A safe cell is opened, and one safe square fewer is left to open. */
    method Reveal(cell: Cell)
      requires Valid() && running && cell in Repr && !cell.hasBomb && !cell.isOpened && !cell.isFlagged
      modifies this`cellsToOpen, this`Open, this`ToOpen, cell`isOpened
      ensures Valid() && cell.isOpened
      ensures Open == old(Open) + {At(cell)} && cellsToOpen == old(cellsToOpen) - 1
    {
      assert At(cell) in ToOpen && At(cell) !in Flags && At(cell) !in Mines;
      cell.isOpened := true;
      Open := Open + {At(cell)};
      ToOpen := ToOpen - {At(cell)};
      cellsToOpen := cellsToOpen - 1;
      LayoutKept();
    }

    /** The state of the cascade after `openCell` on the first `i` cells of
        `ns`: `reached`, `marked` and `budget` are the opened squares, the
        flagged squares and `cellsToOpen` when it began. */
    ghost predicate Cascading(ns: seq<Cell>, i: int, reached: set<(int, int)>, marked: set<(int, int)>, budget: int)
      reads this, cells, Repr
    {
      Valid() && reached <= Open && losses == 0 && cellsToOpen <= budget &&
      (finished <==> cellsToOpen == 0) &&
      (finished ==> wins == 1 && Flags == marked + (Squares - Open)) &&
      (!finished ==>
         running && Flags == marked &&
         (forall j :: 0 <= j < i && j < |ns| ==> At(ns[j]) in Open + Flags) &&
         Settled(Mines, Squares, Open - reached, Open + Flags))
    }

    /** The cascade of `openCell`: opens each neighbour of `cell` in turn.
        `start` holds the squares that were opened before `cell`. */
    method OpenNeighbours(cell: Cell, ns: seq<Cell>, ghost start: set<(int, int)>)
      requires Valid() && running && cellsToOpen != 0
      requires cell in Repr && At(cell) !in start && Open == start + {At(cell)}
      requires Around(Mines, cell.row, cell.column) == {}
      requires forall x :: x in ns ==> x in Repr && At(x) !in Mines
      requires forall x :: x in Repr ==> multiset(ns)[x] == Ind(Adjacent(cell.row, cell.column, x.row, x.column))
      modifies this`running, this`finished, this`cellsToOpen, this`seconds, this`startTime
      modifies this`wins, this`losses, this`Open, this`Flags, this`ToOpen, Repr`isOpened, Repr`isFlagged
      decreases Squares - start, 0
      ensures Valid() && old(Open) <= Open && losses == 0
      ensures startTime == old(startTime) && seconds == old(seconds) && cellsToOpen <= old(cellsToOpen)
      ensures finished <==> cellsToOpen == 0
      ensures finished ==> wins == 1 && Flags == old(Flags) + (Squares - Open)
      ensures !finished ==>
        running && Flags == old(Flags) && Settled(Mines, Squares, Open - start, Open + Flags)
      // Nothing outside the flood fill from `cell` is opened.
      ensures Confined(Mines, Squares, Open, At(cell), start, start + old(Flags))
    {
      NeighboursAround(cells, Repr, Squares, cell.row, cell.column, ns);
      for i := 0 to |ns|
        invariant Cascading(ns, i, old(Open), old(Flags), old(cellsToOpen))
        invariant startTime == old(startTime) && seconds == old(seconds)
        invariant Confined(Mines, Squares, Open, At(cell), start, start + old(Flags))
      {
        Shrinks(Squares, start, Open, At(cell));
        OpenNext(ns, i, At(cell), start, old(Open), old(Flags), old(cellsToOpen));
      }
      if !finished {
        NeighboursCover(cells, Repr, Squares, cell.row, cell.column, ns, Open + Flags);
        SettledAdd(Mines, Squares, start, old(Open), Open, At(cell), Open + Flags);
      }
    }

    /** One step of the cascade from square `c`: `openCell` on its safe neighbour
        `ns[i]`, which stays in the flood fill from `c`. */
    method OpenNext(ns: seq<Cell>, i: int, ghost c: (int, int), ghost start: set<(int, int)>,
                    ghost reached: set<(int, int)>, ghost marked: set<(int, int)>, ghost budget: int)
      requires 0 <= i < |ns| && ns[i] in Repr && Cascading(ns, i, reached, marked, budget) && At(ns[i]) !in Mines
      requires Around(Mines, c.0, c.1) == {} && At(ns[i]) in Around(Squares, c.0, c.1) && start <= reached
      requires Confined(Mines, Squares, Open, c, start, start + marked)
      modifies this`running, this`finished, this`cellsToOpen, this`seconds, this`startTime
      modifies this`wins, this`losses, this`Open, this`Flags, this`ToOpen, Repr`isOpened, Repr`isFlagged
      decreases Squares - Open, 4
      ensures Cascading(ns, i + 1, reached, marked, budget)
      ensures startTime == old(startTime) && seconds == old(seconds)
      ensures Confined(Mines, Squares, Open, c, start, start + marked)
    {
      OpenCell(ns[i]);
      if !finished {
        SettledJoin(Mines, Squares, reached, old(Open), Open, old(Open) + Flags, Open + Flags);
      }
      RegionStep(Mines, Squares, c, At(ns[i]), start, start + marked, old(Open), old(Open) + old(Flags), Open);
    }

    /** `toString`: one line per row, one glyph per cell, no line break after the
        last row; on a grid without rows `deleteAt(-1)` throws, which is `None`. */
    method ToString() returns (text: Option<string>)
      requires Shaped()
      ensures rows == 0 ==> text == None
      ensures rows > 0 ==> text == Some(Render(cells, Repr))
    {
      text := RenderText(cells, Repr);
    }

    /** The text shows the board: a mine as '*', a flag on a safe square as '!',
        a safe unflagged square with no mine around as ' ', and otherwise the
        number of mines around it; each row of the text is `columns` wide. */
    lemma TextShowsBoard()
      requires Layout() && Marks()
      ensures forall r :: 0 <= r < rows ==> |RowsOf(cells, Repr, rows)[r]| == columns
      ensures forall r, c :: 0 <= r < rows && 0 <= c < columns ==>
        Shows(RowsOf(cells, Repr, rows)[r][c], (r, c), Mines, Flags)
    {
      forall x | x in Repr
        ensures x.bombsNear < 10 && Shows(Glyph(x)[0], At(x), Mines, Flags)
      {
        CountsExactBound(Repr, Mines, x);
        GlyphShows(x, Mines, Flags);
      }
      RowsOfShape(cells, Repr);
    }
  }

  /** On a 1 by 3 board with its one mine at (0, 0), opening the middle cell,
      which has that mine around it, opens the middle square alone: the game
      goes on with one safe square, (0, 2), still closed. */
  method OneSquare() returns (game: GameController)
    ensures game.Valid() && game.running && !game.finished
    ensures game.Open == {(0, 1)} && game.cellsToOpen == 1
  {
    game := new GameController.WithMines(1, 3, [(0, 0)]);
    assert game.Mines == {(0, 0)};
    var middle := game.cells[0, 1];
    assert middle.bombsNear == 1;
    game.OpenCell(middle);
  }
}
