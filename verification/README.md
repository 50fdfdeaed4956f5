# Minesweeper rules engine, in Dafny

This project models the rules engine of the Kotlin Minesweeper game
VeselovAlex/minesweeper and proves what its moves do to the board. The
repository holds two versions of the engine, and each is modelled in its own
module. Both are imperative Dafny: a `GameController` class over an
`array2<Cell>` whose cells are updated in place.

- `board.dfy` (module `Board`) holds what the two versions share:
  - the `Cell` class and `GameSettings`;
  - the geometry of the eight neighbours;
  - the grid procedures whose code is identical in both files: allocating
    the grid, `cellAt`, `neighborsOf`, `putBomb`, `flagAllBombs` and
    `openAllBombs`;
  - the lemmas about the cascade (the recursive flood-fill of `openCell`).

  The board state is described by ghost sets of squares, a square being a
  pair (row, column):
  - the mined, opened and flagged squares;
  - the safe squares still closed.
- `render.dfy` (module `Rendering`) holds `toString` of `GameController.kt`:
  one glyph per cell, one line per row, no line break after the last row. It
  proves that splitting the text at its line breaks gives back the rows.
- `controller.dfy` (module `Controller`) holds `GameController.kt`:
  - a `finished` flag and a clock (`startGame`, `onTimeTick`);
  - a constructor that places mines by random draws;
  - a second constructor that takes an explicit list of mine squares;
  - the win check runs before the cascade.
- `legacy.dfy` (module `Legacy`) holds the older `GameController` of `game.kt`:
  - no clock and no `finished` flag;
  - `running` is true from construction on;
  - the win check runs after the cascade, in every frame of the recursion.

The class invariant `Valid()` of each controller ties the fields to the grid:
- every cell's `hasBomb` and `isOpened` and `isFlagged` agree with the ghost
  sets;
- every `bombsNear` is the true number of mines around its square;
- `cellsToOpen` is the number of safe squares still closed;
- no square is both opened and flagged;
- no mine is opened unless the game was lost;
- `flagsSet` counts the flags until the game is won.

The squares one move opens are described by *regions*. A region of the cascade
from square p is a set of squares that holds p and that the cascade cannot
leave. Every square of the region with no mine around it has all its neighbours
either in the region or among the squares already opened or flagged before the
move. Two bounds are proved about a move on a safe cell that leaves the game
running:
- the squares it opened form such a region (nothing is left to do);
- they lie inside every such region (nothing beyond the flood fill is opened).

Together the two bounds say that the move opens exactly the least region, which
is the flood fill from the cell; `Board.FloodFillUnique` proves that only one
set of squares meets both. The second bound also holds when the cascade
wins the game.

`openCell` is recursive. It terminates because each call that does something
opens a square that was closed: the measure is the set of squares not yet
opened.

The random draws and the `onWin`/`onLose` callbacks are replaced as follows:
- `Random.nextInt` is replaced by the sequence of draws that `putBomb`
  accepted, given to the constructor. Those draws are in range and distinct.
- `onWin` and `onLose` are ghost counters `wins` and `losses` of how often
  each was invoked.

## Model

| member | source | states |
|---|---|---|
| Board.Cell.constructor | src/commonMain/kotlin/GameController.kt:212-217 | A new cell sits at the given row and column: no mine, closed, unflagged, `bombsNear` 0. |
| Board.NewCells | src/commonMain/kotlin/GameController.kt:29-33 | The grid is `rows` by `columns`. It holds fresh, empty cells, each at its own coordinates. |
| Board.SquaresExact | src/commonMain/kotlin/GameController.kt:29-33 | The squares of the grid are exactly those in range, and there are `rows * columns` of them. |
| Board.CellAt | src/commonMain/kotlin/GameController.kt:65 | `cellAt` is non-null exactly on the board. It is then the one cell at that square. |
| Board.NeighborsOf | src/commonMain/kotlin/GameController.kt:150-162 | Every cell adjacent to the square occurs exactly once in the list. No other cell occurs, not the square itself and nothing off the board. |
| Board.AroundAtMostEight | src/commonMain/kotlin/GameController.kt:150-162 | No square has more than eight mines around it. |
| Board.CountsExactBound | src/commonMain/kotlin/GameController.kt:122-125 | With exact counts, every `bombsNear` is between 0 and 8. |
| Board.AroundAdd | src/commonMain/kotlin/GameController.kt:122-125 | A new mine raises the count of the squares around it by one, and no other count. |
| Board.PlaceBomb | src/commonMain/kotlin/GameController.kt:122-125 | Only the given cell gets a mine. Each neighbour's `bombsNear` rises by one, others are unchanged, and exact counts stay exact. |
| Board.IncrementAll | src/commonMain/kotlin/GameController.kt:123-125 | Each cell gains one count per occurrence in the list. No other field changes. |
| Board.NoMineAround | src/commonMain/kotlin/GameController.kt:85-89 | With exact counts, every neighbour of a cell whose `bombsNear` is 0 is safe. So the cascade never opens a mine. |
| Board.OpenAllBombs | src/commonMain/kotlin/GameController.kt:138-146 | Exactly the unflagged mines become opened. Flags, mines and counts do not change. |
| Board.FlagAllBombs | src/commonMain/kotlin/GameController.kt:128-136 | Exactly the unopened cells become flagged. Nothing else changes. |
| Board.PickOnBoard | src/commonMain/kotlin/GameController.kt:116-118 | A draw below `rows * columns` names a square on the board: `random / columns`, `random % columns`. |
| Board.PickInjective | src/commonMain/kotlin/GameController.kt:116-118 | Distinct draws name distinct squares. |
| Board.PickIsNew | src/commonMain/kotlin/GameController.kt:113-120 | A draw not made before names a square without a mine. This is the condition that ends the retry loop. |
| Board.CellOfDraw | src/commonMain/kotlin/GameController.kt:118 | The cell a draw names is on the grid, at `Pick` of the draw. |
| Board.PutBomb | src/commonMain/kotlin/GameController.kt:113-126 | The drawn cell gets a mine, and nothing else gets one. The counts around it stay exact. |
| Board.DrawStep | src/commonMain/kotlin/GameController.kt:35-39 | The next accepted draw names a square of the grid that no earlier draw named. Its cell has no mine yet, and the drawn squares grow by exactly that square. |
| Board.PlaceDraws | src/commonMain/kotlin/GameController.kt:35-39 | After one `putBomb` per draw, exactly the drawn squares are mined and every count is exact. Each draw adds one mine. |
| Board.Shrinks | src/commonMain/kotlin/GameController.kt:85-89 | Opening a closed square shrinks the set of squares not yet opened. This is the termination measure of the recursion. |
| Board.SettledJoin | src/commonMain/kotlin/GameController.kt:85-89 | Two stretches of a cascade, each leaving nothing to do at the squares it opened, together leave nothing to do. |
| Board.SettledAdd | src/commonMain/kotlin/GameController.kt:85-89 | A cell with no mine around it, once all its neighbours are opened or flagged, leaves the cascade nothing to do. |
| Board.RegionGrows | src/commonMain/kotlin/GameController.kt:85-89 | A region of the cascade from a square with no mine around is also a region of the cascade from each closed, unflagged neighbour of that square. |
| Board.RegionStep | src/commonMain/kotlin/GameController.kt:85-89 | The cascade opened nothing outside any region from square c so far. `openCell` on a neighbour of c then opens nothing outside the regions from that neighbour. After that step the cascade still opened nothing outside any region from c. |
| Board.FloodFillUnique | src/commonMain/kotlin/GameController.kt:85-89 | Two sets of squares that both hold the cell, leave nothing to do, and lie inside every region from the cell are equal. So the two bounds fix exactly which squares a move opens. |
| Board.NeighboursAround | src/commonMain/kotlin/GameController.kt:150-162 | Every cell that `neighborsOf` lists is at a square of the grid around the given square. |
| Rendering.SmallDecimal | src/commonMain/kotlin/GameController.kt:198 | A count from 1 to 9 is written as its single digit. |
| Rendering.DecimalValue | src/commonMain/kotlin/GameController.kt:198 | `append(cell.bombsNear)` writes decimal digits. Reading them back gives the count. |
| Rendering.Glyph | src/commonMain/kotlin/GameController.kt:193-201 | The glyph is '*' exactly for a mine, flagged or not. It is '!' exactly for a flagged safe cell, ' ' for an unflagged safe cell with count 0, and otherwise the count's digits. |
| Rendering.AppendRow | src/commonMain/kotlin/GameController.kt:192-203 | One pass of the outer loop appends the glyphs of the row's cells, in column order, then a line break, to the text built so far. |
| Rendering.FrameRows | src/commonMain/kotlin/GameController.kt:190-204 | The outer loop leaves every row of the grid, in order, each followed by a line break. |
| Rendering.RenderText | src/commonMain/kotlin/GameController.kt:189-207 | The text is the rows, each followed by a line break, with the last line break removed. A grid without rows gives `None`, where `deleteAt(-1)` throws. |
| Rendering.SplitText | src/commonMain/kotlin/GameController.kt:203-205 | Splitting the text at its line breaks gives back exactly the rows: one line per row, no trailing empty line. |
| Rendering.RenderLines | src/commonMain/kotlin/GameController.kt:189-207 | The lines of the rendered grid are its rows' texts, in order. |
| Rendering.RowTextShape | src/commonMain/kotlin/GameController.kt:192-202 | When every count is a single digit, a row's text has one character per cell: the first character of that cell's glyph. |
| Rendering.RowsOfShape | src/commonMain/kotlin/GameController.kt:190-204 | The same for every row of the grid. |
| Controller.ElapsedSeconds | src/commonMain/kotlin/GameController.kt:109 | `Long` division by 1000 truncates toward zero: the result is the whole seconds of the milliseconds, for either sign. |
| Controller.ListedSquaresCount | src/commonMain/kotlin/GameController.kt:47 | A list of distinct squares on the board names as many squares as it has entries, so `mines.size` is the number of mines. |
| Controller.MinesAroundExact | src/commonMain/kotlin/GameController.kt:55-62 | For a list of distinct squares on the board, the counts the list loop leaves are the true numbers of mines around. |
| Controller.PlaceListed | src/commonMain/kotlin/GameController.kt:55-62 | A cell has a mine exactly when its square is listed. Each count is the number of listed squares around it, repeats included; entries off the board are skipped. |
| Controller.GlyphShows | src/commonMain/kotlin/GameController.kt:193-201 | A cell whose fields agree with the ghost sets shows its square correctly. |
| Controller.GameController.constructor | src/commonMain/kotlin/GameController.kt:8-39 | A new game is valid, not running, not finished, with no flags and nothing opened. Exactly the drawn squares are mined, and `cellsToOpen` is `rows * columns - mines`. |
| Controller.GameController.WithMines | src/commonMain/kotlin/GameController.kt:41-63 | Exactly the listed squares are mined, and the counts follow the list. For distinct squares on the board the game is valid with exact counts. |
| Controller.GameController.CellAt | src/commonMain/kotlin/GameController.kt:65 | Non-null exactly on the board, and then the cell at that square. |
| Controller.GameController.StartGame | src/commonMain/kotlin/GameController.kt:181-187 | A finished game is left alone. Otherwise the game runs, `seconds` is 0 and `startTime` is the current time. |
| Controller.GameController.EndGame | src/commonMain/kotlin/GameController.kt:176-179 | The game is finished and not running. |
| Controller.GameController.Win | src/commonMain/kotlin/GameController.kt:164-168 | The game ends, and `onWin` is invoked once. Every square not opened gets a flag, and `flagsSet` does not change. |
| Controller.GameController.Lose | src/commonMain/kotlin/GameController.kt:170-174 | The game ends, and `onLose` is invoked once. Exactly the unflagged mines are added to the opened squares. |
| Controller.GameController.OnTimeTick | src/commonMain/kotlin/GameController.kt:106-111 | The time is always recorded. `seconds` is recomputed only while running, so it is frozen once the game ends. |
| Controller.GameController.ToggleFlag | src/commonMain/kotlin/GameController.kt:92-104 | Ignored on a finished game or an opened cell. Otherwise the flag flips, `flagsSet` moves by one the same way, and the first move starts the clock. |
| Controller.GameController.ToggleTwice | src/commonMain/kotlin/GameController.kt:92-104 | Toggling a cell twice restores its flag, the flagged squares and `flagsSet`. |
| Controller.GameController.OpenedNotFlagged | src/commonMain/kotlin/GameController.kt:68 | In a valid game no cell is both opened and flagged. |
| Controller.GameController.Flip | src/commonMain/kotlin/GameController.kt:98-103 | The flag flips, and `flagsSet` and the flagged squares follow it. |
| Controller.GameController.OpenCell | src/commonMain/kotlin/GameController.kt:67-90 | See the list after this table. |
| Controller.GameController.Play | src/commonMain/kotlin/GameController.kt:73-89 | The same as `OpenCell` for a closed, unflagged cell of a running game, with the clock untouched. |
| Controller.GameController.Spread | src/commonMain/kotlin/GameController.kt:85-89 | After a safe cell is opened in a running game: with a mine around, nothing more opens. Otherwise the neighbours are opened in turn. No mine is opened. Either the game was won with every unopened square flagged, or nothing is left to do. Nothing outside the flood fill from the cell is opened. |
| Controller.GameController.Uncover | src/commonMain/kotlin/GameController.kt:73-83 | The cell is opened. A mine loses the game; otherwise `cellsToOpen` drops by exactly one, and reaching 0 wins. |
| Controller.GameController.Explode | src/commonMain/kotlin/GameController.kt:73-77 | A mine is opened and the game is lost, with all unflagged mines shown. |
| Controller.GameController.Reveal | src/commonMain/kotlin/GameController.kt:73-79 | A safe cell is opened, and `cellsToOpen` drops by exactly one. |
| Controller.GameController.OpenNeighbours | src/commonMain/kotlin/GameController.kt:85-89 | After `openCell` on every neighbour: the game was won, or every square around the cell is opened or flagged and the cascade left nothing to do. No mine is opened. Nothing outside the flood fill from the cell is opened. |
| Controller.GameController.OpenNext | src/commonMain/kotlin/GameController.kt:86-88 | One more neighbour is opened or flagged, unless the game was won. Nothing is left to do at any square opened so far. Nothing outside the flood fill from the cell is opened so far. |
| Controller.GameController.ToString | src/commonMain/kotlin/GameController.kt:189-207 | The text is the rendering of the grid, or `None` on a grid without rows. |
| Controller.OneSquare | src/commonMain/kotlin/GameController.kt:85-89 | On a 1 by 3 board with a mine at (0, 0), opening (0, 1) opens that square alone. The game goes on with one safe square to open. |
| Controller.GameController.TextShowsBoard | src/commonMain/kotlin/GameController.kt:189-207 | Each line of the text is `columns` characters. Character c of line r is '*' for a mine, '!' for a flagged safe square, ' ' for an unflagged safe square with no mine around, and otherwise the digit of the number of mines around. |
| Legacy.GameController.constructor | src/commonMain/kotlin/game.kt:30-54 | A new game is valid and already running, with no flags and nothing opened. Exactly the drawn squares are mined, and `cellsToOpen` is `rows * columns - mines`. |
| Legacy.GameController.CellAt | src/commonMain/kotlin/game.kt:56 | Non-null exactly on the board, and then the cell at that square. |
| Legacy.GameController.EndGame | src/commonMain/kotlin/game.kt:153-155 | The game stops running. |
| Legacy.GameController.Win | src/commonMain/kotlin/game.kt:141-145 | The game stops, and `onWin` is invoked once more. Every square not opened gets a flag, and `flagsSet` does not change. It may run on a game already won. |
| Legacy.GameController.Lose | src/commonMain/kotlin/game.kt:147-151 | The game stops, and `onLose` is invoked once. Exactly the unflagged mines are added to the opened squares. |
| Legacy.GameController.ToggleFlag | src/commonMain/kotlin/game.kt:79-88 | Ignored once the game has stopped or on an opened cell. Otherwise the flag flips and `flagsSet` moves by one the same way. |
| Legacy.GameController.ToggleTwice | src/commonMain/kotlin/game.kt:79-88 | Toggling a cell twice restores its flag, the flagged squares and `flagsSet`. |
| Legacy.GameController.OpenedNotFlagged | src/commonMain/kotlin/game.kt:59 | In a valid game no cell is both opened and flagged. |
| Legacy.GameController.Flip | src/commonMain/kotlin/game.kt:82-87 | The flag flips, and `flagsSet` and the flagged squares follow it. |
| Legacy.GameController.OpenCell | src/commonMain/kotlin/game.kt:58-77 | See the list after this table. |
| Legacy.GameController.Play | src/commonMain/kotlin/game.kt:61-76 | The same as `OpenCell` for a closed, unflagged cell of a running game; the win check after `Spread` runs even when the cascade already won. |
| Legacy.GameController.Spread | src/commonMain/kotlin/game.kt:61-72 | A safe cell is opened and, with no mine around it, its neighbours in turn. Afterwards no mine is open, `cellsToOpen` has dropped, and flags are untouched while running. A game that stopped was won with every unopened square flagged; one still running has nothing left for the cascade to do. Nothing outside the flood fill from the cell is opened, and with a mine around it the cell alone is opened. |
| Legacy.GameController.Explode | src/commonMain/kotlin/game.kt:61-65 | A mine is opened and the game is lost, with all unflagged mines shown. |
| Legacy.GameController.Reveal | src/commonMain/kotlin/game.kt:61-66 | A safe cell is opened, and `cellsToOpen` drops by exactly one. |
| Legacy.GameController.OpenNeighbours | src/commonMain/kotlin/game.kt:68-72 | See the list after this table. |
| Legacy.GameController.OpenNext | src/commonMain/kotlin/game.kt:69-71 | One more neighbour is opened or flagged, unless the game was won. Nothing is left to do at any square opened so far. Nothing outside the flood fill from the cell is opened so far. |
| Legacy.TwoWins | src/commonMain/kotlin/game.kt:74-76 | On a 1 by 2 board without mines, opening the left cell invokes `onWin` at least twice. |

`Controller.GameController.OpenCell` states:
- it is a no-op on a finished game and on an opened or flagged cell;
- otherwise the cell is opened, and the first move starts the clock;
- a mine loses the game and shows the unflagged mines;
- a safe cell lowers `cellsToOpen`;
- the game finishes exactly when `cellsToOpen` reaches 0, and then every square not opened is flagged;
- a game still running has flags untouched, and the cascade left no closed, unflagged square next to an opened square with no mines around;
- a safe cell opens nothing outside the flood fill from it;
- a safe cell with a mine around opens itself alone, and `cellsToOpen` drops by exactly one;
- `onWin` and `onLose` are invoked at most once between them.

`Legacy.GameController.OpenCell` states:
- it is a no-op once the game has stopped and on an opened or flagged cell;
- otherwise the cell is opened, and a mine loses the game;
- a safe cell lowers `cellsToOpen`;
- the game stops exactly when `cellsToOpen` reaches 0, and then every square not opened is flagged;
- while running, the cascade leaves nothing to do;
- a safe cell opens nothing outside the flood fill from it;
- a safe cell with a mine around opens itself alone, and `cellsToOpen` drops by exactly one;
- when a cascade from a cell with no mines around wins the game on another square, `onWin` has been invoked at least twice.

`Legacy.GameController.OpenNeighbours` states:
- the game was won, or every square around the cell is opened or flagged and the cascade left nothing to do;
- if the game still runs with no safe square left closed, none was closed when the cascade began;
- no flag changes while the game runs, and every square not opened is flagged once it stops;
- nothing outside the flood fill from the cell is opened.

## Left out

- `Random.nextInt` and the retry loop of `putBomb`. The constructors take the draws the loop accepted. A retry loop that never ends (more mines than squares) is excluded by requiring one distinct draw per mine.
- The random placement that the explicit-mine constructor runs first, through the primary constructor. Its reset loop clears every cell anyway, so `Controller.GameController.WithMines` starts from an empty grid. It requires no more listed squares than squares, which is what lets that first placement end.
- The `onWin` and `onLose` callbacks. They are foreign code, modelled only as the ghost counters `wins` and `losses`.
- `mutableStateOf` and Compose recomposition. The delegated properties are plain fields.
- Integer width. All counters are unbounded integers, so `rows * columns` does not overflow.
- Controller.ElapsedSeconds: the `toInt()` narrowing of the elapsed seconds from `Long` to `Int` is not modelled.
- Controller.GameController.OpenCell: the contract states which squares a move opens, but not the order in which the neighbours are visited.
- Controller.GameController.WithMines: a list with a repeated entry or an entry off the board gives no `Valid()` game, so no move on such a game is modelled. On such a list the source's `cellsToOpen` is below the number of safe squares, so its `win()` fires while safe squares are still closed.
- Legacy.GameController.OpenCell: `wins` is bounded from below (at least one, at least two when a cascade wins), not counted exactly.
- Rendering.RowsOfShape: the one-character-per-cell shape is stated only when every `bombsNear` is below 10. That always holds with exact counts, but not for an explicit mine list with ten or more listed entries around one square.
- Rendering.RenderText: `deleteAt(length - 1)` on a grid without rows throws; the model returns `None` there.
- Compose UI (`BoardView`, `Game`, the composables) and the platform entry points, which hold no rules.

## Findings

| source | as written | input that shows it | evidently intended | confidence | as-written member | corrected member |
|---|---|---|---|---|---|---|
| src/commonMain/kotlin/game.kt:74-76 | `openCell` checks `cellsToOpen == 0` after its cascade in every recursion frame, with no guard. Every frame on the stack that sees 0 calls `win()` again. | A 1 by 2 board without mines, `openCell` on (0, 0). The cascade opens (0, 1), which wins; the outer frame then wins again. | `onWin` is invoked once per game. GameController.kt moves the check before the cascade and adds `finished`. | not executed | Legacy.TwoWins | Controller.GameController.OpenCell |
