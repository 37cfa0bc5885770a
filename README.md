# Swinesweeper board engine in Dafny

Swinesweeper is a Minesweeper game with pigs instead of mines, written as one
React component. This project models the component's board engine and proves
properties of it. The board is 10 by 10 cells. Each cell has a `value`, a
`clicked` bit and a `flagged` bit. The value is either the number of pigs
among the cell's in-range neighbours or the pig marker.

Modules:

- `Board` (`board.dfy`) holds the cell and board types, the eight neighbour
  offsets in the game's order, and the neighbour count `CountPigs`. It also
  defines the board invariants:
  - `CountsCorrect`: every non-pig cell shows its count;
  - `NoAdjacentPigs`: no two pigs touch;
  - `PigCells`: the set of pig positions;
  - `ClickedOnly`: clicks only ever turn on.
- `Generate` (`generate.dfy`) builds a new game.
  - `GenerateBoard` builds the all-hidden grid with nested loops.
  - It then runs the placement loop. Each pass picks a cell that still shows 0 and calls `PlacePig`.
  - `PlacePig` makes the cell a pig, then walks the eight directions and bumps each in-range non-pig neighbour.
  - `WithPig` is the function `PlacePig` is proved against.
  - The lemmas beside it show that each placement keeps the counts right, keeps pigs apart and adds exactly one pig.
  - `ZeroCellExists` proves that the loop always finds a cell showing 0.
- `Reveal` (`reveal.dfy`) is the flood fill behind a click.
  - `RevealSurrounding` is the recursive fill.
  - It is proved equal to `FloodFill`: the board with every cell clicked that the start reaches along a path of unclicked cells, where every cell but the last shows 0.
  - It terminates because the set of unclicked cells shrinks before every recursive call.
- `Game` (`game.dfy`) holds the event handlers.
  - `CheckForWin` is the win scan.
  - `HandleLongPress` toggles a flag.
  - `RevealAll` is the end-of-game update.
  - `HandleClick` handles a click:
    - a click that ends a long press only clears that state;
    - a click on a pig clicks it and then the whole board;
    - any other click runs the fill, and clicks the whole board if the win scan then succeeds.

The game copies the board with `JSON.parse(JSON.stringify(...))` before each
update. The model therefore treats boards as values (`seq<seq<Cell>>`), and
each handler returns the board the game shows next. Cells are indexed
`board[x][y]` with `x` the row.

Where a plain description of Minesweeper and the code differ, the model
follows the code:

- Flags do not stop anything. Neither the click nor the fill reads
  `flagged`, so a flagged cell in the fill's way is clicked
  (`Reveal.FloodFillIgnoresFlags`).
- The win scan asks only that every non-pig cell be clicked. A clicked pig
  does not prevent a "win".
- A pig is only ever put on a cell that still shows 0. Pigs therefore never
  touch, and the placement is not uniform over all pig layouts.
- The board size and the pig total are both fixed at 10. They are not
  parameters.
- A click or long press out of range is not reported as an error. The game
  only binds the handlers to cells that exist. Out of range, the source
  throws a TypeError when it reads `.clicked` or `.value` of an undefined
  cell (src/Swinesweeper.js:82, 94). Both handlers' requires exclude that
  case.

## Model

| member | source | states |
|---|---|---|
| Game.CheckForWin | src/Swinesweeper.js:19-28 | answers true exactly when every cell that is not a pig is clicked; the board is a value, so the scan cannot change it |
| Board.CountPigs | src/Swinesweeper.js:60-71 | the count over a list of offsets is at most the number of offsets, and is 0 exactly when no in-range offset holds a pig |
| Board.NoPigNextToZero | src/Swinesweeper.js:45-71 | on a board whose counts are right, no neighbour of a cell showing 0 is a pig |
| Board.CountPigsAfterNewPig | src/Swinesweeper.js:60-71 | adding one pig raises a cell's count by one exactly when the pig is at one of the counted offsets, and leaves it unchanged otherwise |
| Board.SameValuesKeepPigs | src/Swinesweeper.js:79-153 | a step that changes no cell value keeps the set of pigs, the correctness of every count and the separation of pigs; a click is such a step, since `HandleClick` promises `ClickedOnly` |
| Generate.WithPig | src/Swinesweeper.js:45-72 | placing a pig at a non-pig cell turns exactly that cell into a pig; each neighbour that is not a pig counts one more; clicked and flagged are untouched everywhere |
| Generate.PlacePig | src/Swinesweeper.js:45-72 | marking the pig and then bumping each in-range non-pig neighbour, direction by direction, yields exactly `WithPig` |
| Generate.PlaceStep | src/Swinesweeper.js:60-71 | one pass of the direction loop bumps the cell it reaches, if that cell is in range and not a pig, and so keeps the loop invariant with one more direction walked |
| Generate.WithPigCountAt | src/Swinesweeper.js:45-72 | after a pig goes on a cell showing 0, each non-pig cell shows the number of pigs around it |
| Generate.WithPigKeepsCounts | src/Swinesweeper.js:45-72 | placing a pig on a cell showing 0 keeps every count correct |
| Generate.WithPigKeepsPigsApart | src/Swinesweeper.js:45-72 | placing a pig on a cell showing 0 of a board with correct counts puts it next to no other pig |
| Generate.WithPigAddsOnePig | src/Swinesweeper.js:45-47 | the chosen cell was not a pig, the set of pig cells grows by exactly that cell, and the number of pigs goes up by exactly one, matching `pigsPlaced++` |
| Generate.ZeroCellExists | src/Swinesweeper.js:41-45 | while fewer than 16 pigs are on a board with correct counts, some cell shows 0, so the sampling loop can always place the next pig |
| Generate.GenerateBoard | src/Swinesweeper.js:30-77 | the new board is 10 by 10 with nothing clicked or flagged; it has exactly 10 pigs, no two touching; every other cell shows the number of pigs around it, which is at most 8 |
| Reveal.UnclickedShrinks | src/Swinesweeper.js:115-119 | a step that only adds clicks never adds a position to the set of unclicked cells, the fill's termination measure |
| Reveal.FloodFill | src/Swinesweeper.js:114-137 | the fill's reference result: values and flags are untouched and clicks only turn on (`ClickedOnly`); a cell is clicked afterwards exactly when it was clicked before or the start reaches it along a path of in-range unclicked cells, each touching the next and each but the last showing 0 |
| Reveal.FloodFillIdle | src/Swinesweeper.js:115-117 | a fill started out of range or on a clicked cell leaves the board unchanged |
| Reveal.FloodFillClicksStart | src/Swinesweeper.js:119 | a fill started on an in-range cell leaves that cell clicked |
| Reveal.FloodFillIgnoresFlags | src/Swinesweeper.js:114-137 | two boards that differ only in flags get the same cells clicked by the fill |
| Reveal.FloodFillClosed | src/Swinesweeper.js:121-136 | every cell showing 0 that the fill clicks has all its in-range neighbours clicked afterwards |
| Reveal.FillPathAvoidsPigs | src/Swinesweeper.js:121-136 | on a board with correct counts, a fill path that starts on a non-pig cell contains no pig |
| Reveal.FloodFillAvoidsPigs | src/Swinesweeper.js:94-139 | on a board with correct counts, a fill started on a non-pig cell leaves the clicked bit of every pig unchanged |
| Reveal.ClosedIsComplete | src/Swinesweeper.js:121-136 | if no newly clicked 0 other than the start has an unclicked neighbour, and the start is clicked, then every cell the start reaches is clicked |
| Reveal.FillCharacterised | src/Swinesweeper.js:114-137 | a board that only added clicks reachable from the start, clicked the start and left no newly clicked 0 with an unclicked neighbour is exactly `FloodFill` |
| Reveal.FillStep | src/Swinesweeper.js:133-135 | the recursive fill from the k-th neighbour of a started 0 cell keeps the loop invariant of the outer fill, with one more direction visited |
| Reveal.RevealSurrounding | src/Swinesweeper.js:114-139 | the recursive fill, terminating on the shrinking set of unclicked cells, returns exactly `FloodFill` of its start |
| Game.RevealAll | src/Swinesweeper.js:103-107 | every cell of every row ends up clicked, and values and flags are kept |
| Game.RevealAllKeepsRevealedBoard | src/Swinesweeper.js:144-148 | revealing a board on which every cell is already clicked changes nothing |
| Game.HandleLongPress | src/Swinesweeper.js:79-87 | on an unclicked cell the flag flips, on a clicked cell nothing changes, and value, clicked and every other cell are kept |
| Game.LongPressTwice | src/Swinesweeper.js:79-87 | two long presses on the same cell restore the board |
| Game.LongPressKeepsPigs | src/Swinesweeper.js:79-87 | a long press keeps the set of pigs, the correctness of every count and the separation of pigs |
| Game.HandleClick | src/Swinesweeper.js:89-153 | a click right after a long press changes nothing and clears the long-press state; a pig click leaves every cell clicked; any other click gives the fill, fully revealed if the win scan then holds; clicks only turn on; on a board with correct counts a non-pig click clicks no pig unless all is revealed; a fully revealed board stays as it is |

## Left out

- React state hooks, JSX rendering and styling are UI and are not modelled. The board is passed to and returned from each handler.
- The pig check in `handleClick` reads the component's current `board`, while the update goes through `setBoard`'s previous board. The model uses one board for both, as they agree whenever no other update is pending.
- The `react-spring` button animation is presentation and is not modelled.
- `alert` and the `setTimeout` delays are I/O and scheduling. The model does not show the messages and applies the reveal-all update at once.
- The win message is not modelled. After a loss a further click on a non-pig cell would make the win scan succeed again.
- The touch timer (`onTouchStart`, `onTouchEnd`, `onTouchMove`) and the context-menu event are gesture plumbing and are not modelled. Only their effect is kept: a `longPressDetected` flag passed to `HandleClick`, and the long press itself.
- `Math.random` is replaced by a nondeterministic choice of a cell that shows 0. A sample that hits any other cell changes nothing in the source, so it is left out, as is the distribution of boards.
- `console.log` is I/O and is not modelled.
- How many samples the placement loop draws before it hits a cell showing 0 is not modelled, since it depends on the random source. The model instead proves that such a cell always exists (`Generate.ZeroCellExists`), so every pass of its loop places a pig.
