# Pac-Path core, modelled in Dafny

Pac-Path is a React page with two games. In the first, Pac-Man walks a 15x15
maze to a piece of food the player drops. The route is found by an A*
search (`findPath`) over the four-connected board. The maze is a border of
walls plus up to fifty random interior walls, laid out by `initializeGame`. In the
second, the player solves an 8-puzzle. A new game starts from a board made by
five random blank moves away from the solved board (`generateEasyPuzzle`). The
board is redrawn while it fails the inversion-parity test (`isSolvable`,
`shufflePuzzle`). A click slides a tile into the blank (`moveTile`), and the
game is won when the board is solved (`isSolved`).

The model has seven modules:

- `Rolls`: the random draws. Each `Math.random()` value is an input `real` in
  [0, 1). `Math.floor(r * k)` is `Pick(r, k)`.
- `Grid`: cells, the Manhattan heuristic `h`, `getNeighbors`, and walks.
- `Walls`: the wall layout of `initializeGame`, as an imperative method with
  two loops that append to a list.
- `SearchState`: the invariant of the A* loop and the lemmas that keep it.
- `PathFinder`: `findPath` as imperative methods over the open list, the
  closed set and the three score maps.
- `InversionCount`: the inversion count and the way a blank move changes its
  parity.
- `EightPuzzle`: the puzzle's board, `moveTile`, `isSolved`,
  `getBlankPosition`, `isSolvable` (the nested loop),
  `generateEasyPuzzle` (a loop that swaps cells of an array),
  `shufflePuzzle`, and a click as the game handles it: `moveTile` followed
  by the effect that marks a solved board as won.

The main results:

- `findPath` returns a shortest walk through passable cells exactly when one
  exists, and `null` otherwise. It expands at most 225 cells.
- Every move keeps a valid board and the parity of its inversion count.
- Every generated puzzle passes `isSolvable`, so `shufflePuzzle`'s redraw
  loop runs once, and it is never already solved. It is reachable from the
  solved board by legal `moveTile` calls. Played as clicks in the game, that
  walk gives the same board while no intermediate board is the solved one;
  after that the win check stops the game.
- A click on the cell the blank just left undoes the move, unless the first
  click solved the puzzle: then the game is won and the second click is
  ignored.

## Model

| member | source | states |
|---|---|---|
| Rolls.Pick | src/components/PacmanGame.js:406 | `Math.floor(Math.random() * k)` with a draw in [0, 1) is an index below k |
| Rolls.PickIsFloor | src/components/PacmanGame.js:406 | Pick(r, k) is the floor of r * k |
| Rolls.TimesIsProduct | src/components/PacmanGame.js:46-47 | the stepwise scaling of a draw equals the product r * k |
| Grid.KeepPassable | src/components/PacmanGame.js:84-91 | the filter keeps exactly the in-bounds cells that are not walls, and never adds one |
| Grid.Neighbors | src/components/PacmanGame.js:73-92 | getNeighbors returns exactly the passable cells one step away, at most four |
| Grid.Distance | src/components/PacmanGame.js:71 | the heuristic h: the Manhattan distance, used unchanged (no ensures of its own; its properties are stated by WalkCoversDistance) |
| Grid.BoardCardinality | src/components/PacmanGame.js:5 | the board has GRID_SIZE * GRID_SIZE cells |
| Grid.WalkCoversDistance | src/components/PacmanGame.js:71 | h never overestimates: a walk from a to b has at least h(a, b) steps |
| Grid.WalkStaysInside | src/components/PacmanGame.js:73-92 | a walk that starts in a region closed under neighbour steps stays in it |
| Grid.PrefixIsWalk | src/components/PacmanGame.js:104-134 | a prefix of a walk is a walk |
| Grid.SuffixIsWalk | src/components/PacmanGame.js:104-134 | a suffix of a walk is a walk |
| Walls.BorderWalls | src/components/PacmanGame.js:38-43 | the first n rounds of the border loop push 4n cells |
| Walls.BorderWallsCover | src/components/PacmanGame.js:38-43 | those cells are exactly the first n cells of each side of the border |
| Walls.DrawnCell | src/components/PacmanGame.js:46-47 | a drawn cell lies strictly inside the border |
| Walls.RandomWalls | src/components/PacmanGame.js:45-51 | the random loop pushes at most one wall per pair of draws |
| Walls.RandomWallsInside | src/components/PacmanGame.js:45-51 | every random wall is an interior cell other than Pac-Man's start (1, 1) |
| Walls.LayoutShape | src/components/PacmanGame.js:35-51 | the whole border is walled, every other wall is interior, the start is free, and the length is between 60 and 60 plus the number of draws |
| Walls.InitialWalls | src/components/PacmanGame.js:35-51 | the two loops build the border followed by the drawn walls, with the layout above |
| SearchState.FirstOutside | src/components/PacmanGame.js:104-134 | a walk leaving the closed set has a first cell outside it, and every cell before it is closed |
| SearchState.CurrentIsOptimal | src/components/PacmanGame.js:105-107 | the open cell of least fScore has a gScore no longer than any walk to it from start |
| SearchState.FrontierBound | src/components/PacmanGame.js:105-134 | a walk to the chosen cell, entered at its first cell that is not closed, is at least as long as the chosen cell's gScore, because that first cell is open and its fScore is no smaller |
| SearchState.RemoveAt | src/components/PacmanGame.js:119 | splicing out one entry keeps the others, drops that one, and keeps the list free of repeats |
| SearchState.CloseCurrent | src/components/PacmanGame.js:119-120 | moving the current cell from the open list to the closed set keeps the search invariant |
| SearchState.QueuedAfterClose | src/components/PacmanGame.js:119-120 | after that move, open cells are still scored, distinct, not closed and passable; predecessors are closed; the goal is not closed |
| SearchState.ExploredAfterClose | src/components/PacmanGame.js:119-120 | after that move, every passable step out of a closed cell other than the current one still ends in a closed cell or an open cell with gScore at most one more |
| SearchState.Relax | src/components/PacmanGame.js:124-133 | queueing or improving a neighbour keeps the invariant and settles that neighbour |
| SearchState.QueuedAfterRelax | src/components/PacmanGame.js:124-133 | after queueing or improving, open cells are still scored, distinct, not closed and passable, and predecessors closed |
| SearchState.ExploredAfterRelax | src/components/PacmanGame.js:124-133 | after queueing or improving, every step that was settled stays settled |
| SearchState.AllNeighborsSettled | src/components/PacmanGame.js:120-134 | once every neighbour of the current cell is settled, the invariant holds with no cell pending |
| SearchState.ExhaustedMeansUnreachable | src/components/PacmanGame.js:104-137 | an empty open list without reaching the goal means no walk to the goal exists |
| PathFinder.SelectCurrent | src/components/PacmanGame.js:105-107 | the reduce picks an entry of least fScore, the last such entry on a tie |
| PathFinder.VisitNeighbor | src/components/PacmanGame.js:120-133 | one neighbour is skipped if closed, appended if new, and re-scored only when strictly cheaper; the invariant is kept |
| PathFinder.SettledPrefix | src/components/PacmanGame.js:120-134 | the neighbours visited so far stay settled |
| PathFinder.ExpandNeighbors | src/components/PacmanGame.js:120-134 | the neighbour loop restores the invariant with no cell pending |
| PathFinder.Reconstruct | src/components/PacmanGame.js:109-117 | following cameFrom back from the goal and prepending start gives a walk from start to the goal of length gScore + 1 |
| PathFinder.FindPath | src/components/PacmanGame.js:70-138 | the result is a walk from start to end, no longer than any other, and null exactly when end is unreachable; start == end gives [start]; a walled end gives null |
| PathFinder.BoundedExpansions | src/components/PacmanGame.js:104-120 | at most GRID_SIZE * GRID_SIZE cells are ever closed |
| InversionCount.Inverted | src/components/PacmanGame.js:420 | the test of the inner loop: both entries non-zero and the earlier larger (a definition, no ensures) |
| InversionCount.Inversions | src/components/PacmanGame.js:417-425 | the number of inverted pairs, each entry against every later one (a definition, no ensures; IsSolvable is proved to compute its parity) |
| InversionCount.CountBelow | src/components/PacmanGame.js:419-423 | the inner loop's count is at most the cells it scans, and zero for the blank |
| InversionCount.CountBelowExtend | src/components/PacmanGame.js:419-423 | one more step of the inner loop adds one exactly for an inverted pair |
| InversionCount.CountBelowAppend | src/components/PacmanGame.js:417-425 | the count against a concatenation is the sum of the counts |
| InversionCount.InversionsAppend | src/components/PacmanGame.js:417-425 | the inversions of x + y are those in x, those in y, and those across |
| InversionCount.CrossAppendLeft | src/components/PacmanGame.js:417-425 | the cross count splits over the left operand |
| InversionCount.CrossAppendRight | src/components/PacmanGame.js:417-425 | the cross count splits over the right operand |
| InversionCount.CrossBlank | src/components/PacmanGame.js:420 | no tile forms an inversion with the blank |
| InversionCount.CrossComplement | src/components/PacmanGame.js:420 | against a different tile d, each tile of a block is inverted with d on exactly one side |
| InversionCount.BlockSwapParity | src/components/PacmanGame.js:409 | swapping the blank and a tile across a block changes the count by the block's length, modulo 2 |
| InversionCount.InversionsThree | src/components/PacmanGame.js:417-425 | the inversions of p + x + q split into the three parts and three cross counts |
| InversionCount.SwapKeepsParity | src/components/PacmanGame.js:409 | swapping the blank and a tile across an even block keeps the parity |
| InversionCount.NoInversions | src/components/PacmanGame.js:420 | a row with no inverted pair has no inversions |
| InversionCount.NoneBelow | src/components/PacmanGame.js:420 | a tile inverted with no later entry counts zero |
| EightPuzzle.Swap | src/components/PacmanGame.js:409 | the destructuring swap exchanges two cells and leaves the rest |
| EightPuzzle.SwapIsBoard | src/components/PacmanGame.js:446-448 | swapping two cells of a board gives a board |
| EightPuzzle.Row | src/components/PacmanGame.js:441-443 | `Math.floor(i / 3)`: a cell 0..8 lies in row 0..2 |
| EightPuzzle.Col | src/components/PacmanGame.js:442-444 | `i % 3`: the column is 0..2 |
| EightPuzzle.Slidable | src/components/PacmanGame.js:446 | moveTile's adjacency test: rows one apart in the same column, or columns one apart in the same row (a definition, no ensures; SlideSpan states its properties) |
| EightPuzzle.SwapTwice | src/components/PacmanGame.js:448 | swapping the same two cells twice gives the board back |
| EightPuzzle.SolvedIsBoard | src/components/PacmanGame.js:390 | the starting board is a board |
| EightPuzzle.AllTiles | src/components/PacmanGame.js:433-435 | every tile 0..8, the blank included, is on a board |
| EightPuzzle.SlideSpan | src/components/PacmanGame.js:446 | adjacency is symmetric, and adjacent cells are 1 or 3 apart |
| EightPuzzle.BlankPosition | src/components/PacmanGame.js:433-435 | indexOf(0): the first cell holding the blank, or -1 when there is none |
| EightPuzzle.BlankOfBoard | src/components/PacmanGame.js:433-435 | on a board the blank is found and sits in exactly one cell |
| EightPuzzle.IsSolved | src/components/PacmanGame.js:428-431 | the grid agrees with the solved board on each of its own cells; a nine-cell grid passes exactly when it is the solved board, which is solvable |
| EightPuzzle.IsSolvable | src/components/PacmanGame.js:416-426 | the nested loop answers true exactly when the number of inversions is even |
| EightPuzzle.SwapParityAt | src/components/PacmanGame.js:409 | swapping the blank with a tile an odd number of cells away keeps the parity |
| EightPuzzle.SplitAround | src/components/PacmanGame.js:409 | a board cut around two cells, before and after the swap |
| EightPuzzle.MoveParity | src/components/PacmanGame.js:446-448 | sliding an adjacent tile into the blank keeps a board and the parity |
| EightPuzzle.SwapSymmetric | src/components/PacmanGame.js:409 | swapping i with j is swapping j with i |
| EightPuzzle.MoveTile | src/components/PacmanGame.js:437-452 | nothing changes when the game is won or the cell is not next to the blank; otherwise the tile and blank trade places, the click is recorded, and the board and its parity are kept |
| EightPuzzle.CheckWin | src/components/PacmanGame.js:367-373 | after a change of the board, a solved board marks the game won and the tiles and moves stay |
| EightPuzzle.SolvedFreezes | src/components/PacmanGame.js:367-373 | once the solved board is seen, every click changes nothing |
| EightPuzzle.MoveTileSlides | src/components/PacmanGame.js:437-452 | a legal click before a win swaps the two cells and records the click |
| EightPuzzle.MoveTileAt | src/components/PacmanGame.js:437-452 | with the blank at a given cell, a click on an adjacent cell before a win swaps the two and records the click |
| EightPuzzle.MoveTileUndo | src/components/PacmanGame.js:437-452 | a second moveTile call on the cell the blank just left gives the earlier board back, with both calls recorded |
| EightPuzzle.Replay | src/components/PacmanGame.js:437-452 | any run of moveTile calls keeps a board and the parity of its inversions |
| EightPuzzle.Click | src/components/PacmanGame.js:367-452 | a click is moveTile followed by the win effect: the board stays a board, and the game is won exactly when it was won before or the new board is the solved one |
| EightPuzzle.PlayKeepsParity | src/components/PacmanGame.js:367-452 | any run of clicks in the game keeps a board and the parity of its inversions |
| EightPuzzle.WonIgnoresClicks | src/components/PacmanGame.js:437-438 | once the game is won, no run of clicks changes anything |
| EightPuzzle.PlayFollowsReplay | src/components/PacmanGame.js:367-452 | from a game not yet won, clicks behave as plain moveTile calls as long as none of them produces the solved board |
| EightPuzzle.ClickUndo | src/components/PacmanGame.js:367-452 | clicking a tile next to the blank and then the cell the blank left: the first board comes back with both clicks recorded, unless the first click solved the puzzle, in which case the game is won and the second click is ignored |
| EightPuzzle.PlayTwo | src/components/PacmanGame.js:367-452 | two clicks in a row are one click after the other |
| EightPuzzle.PlayStep | src/components/PacmanGame.js:367-452 | a run of clicks is its first click followed by the rest |
| EightPuzzle.ClickAfterWin | src/components/PacmanGame.js:437-438 | after a win a click changes nothing |
| EightPuzzle.SolvedIsSolvable | src/components/PacmanGame.js:416-426 | the solved board has no inversions and passes isSolvable |
| EightPuzzle.SwappedPairIsUnsolvable | src/components/PacmanGame.js:416-426 | the board with 7 and 8 exchanged has one inversion and fails isSolvable |
| EightPuzzle.FrontInOrder | src/components/PacmanGame.js:416-426 | the tiles 1..6 have no inversions, nor any against 8, 7, 0 |
| EightPuzzle.NoCross | src/components/PacmanGame.js:420 | no inverted pair across two rows means a cross count of zero |
| EightPuzzle.SwappedPairUnreachable | src/components/PacmanGame.js:367-452 | from any board that passes isSolvable, no run of moveTile calls and no run of clicks in the game reaches the board with 7 and 8 exchanged |
| EightPuzzle.NotSwappedPair | src/components/PacmanGame.js:416-426 | a board that passes isSolvable is not the board with 7 and 8 exchanged |
| EightPuzzle.PossibleMoves | src/components/PacmanGame.js:395-403 | the blank has between two and four moves |
| EightPuzzle.PossibleMovesAreSlides | src/components/PacmanGame.js:395-403 | the moves offered are exactly the cells moveTile accepts as next to the blank |
| EightPuzzle.BlankMove | src/components/PacmanGame.js:406 | the move drawn is one of the moves offered for the blank |
| EightPuzzle.BlankMoveSlides | src/components/PacmanGame.js:406 | the picked move is a cell next to the blank |
| EightPuzzle.ScrambleClicks | src/components/PacmanGame.js:393-411 | the blank visits one cell per draw |
| EightPuzzle.Scramble | src/components/PacmanGame.js:393-411 | scrambling a nine-cell board gives a nine-cell board |
| EightPuzzle.ScrambleKeepsParity | src/components/PacmanGame.js:393-411 | a scrambled board is a board with the parity it started with |
| EightPuzzle.ScrambleIsPlayable | src/components/PacmanGame.js:393-411 | calling moveTile on the cells the blank visits, in order, reproduces the scrambled board |
| EightPuzzle.SlideChangesParity | src/components/PacmanGame.js:446 | two adjacent cells have indices of different parity |
| EightPuzzle.ScrambleBlank | src/components/PacmanGame.js:393-411 | after the draws the blank sits at the cell the moves lead to, and that cell has the parity of the start exactly when the number of draws is even |
| EightPuzzle.ParityStep | src/components/PacmanGame.js:393-411 | one more move of the blank flips whether its index parity matches the start |
| EightPuzzle.OddScrambleMovesBlank | src/components/PacmanGame.js:393-411 | after an odd number of blank moves the blank is at a different cell |
| EightPuzzle.GeneratedNotSolved | src/components/PacmanGame.js:388-414 | five blank moves from the solved board never give the solved board back |
| EightPuzzle.GenerateEasyPuzzle | src/components/PacmanGame.js:388-414 | the array loop computes the scramble of the solved board for the five draws, which is a solvable board |
| EightPuzzle.ShufflePuzzle | src/components/PacmanGame.js:375-386 | the new game is the scrambled board, with no moves and not won, and that board is solvable and not already solved |

## Left out

- React state, hooks, rendering, cell clicks, scores, pop-ups and the analytics and explanation text are user interface, not logic.
- The step-by-step animation of Pac-Man along the path (lines 152-204) and the sprite rotation by `Math.atan2` are timers and floating-point display.
- `Math.random` is not modelled. Each draw is an input in [0, 1).
- Cells are compared as `(x, y)` values. The source keys its sets and maps by the string `"x,y"`, which is one-to-one on integer cells.
- The walls are built as a list with possible repeats (`Walls.InitialWalls`). `PathFinder.FindPath` takes them as a set, because the search only asks whether a cell is in the list.
- `PathFinder.FindPath`: the number of cells it expands is returned as a ghost count.
- The puzzle's `solution` state and the analytics (`moveFrequency` and the rest) are not modelled; no solver is modelled.
- EightPuzzle.MoveTile: requires a valid board and a cell 0..8. The board is always one the game built (solved, shuffled or moved), and clicks only come from the nine cells.
- EightPuzzle.ShufflePuzzle: takes one set of five draws. Every generated board passes the test, so the redraw loop never asks for a second set.
- EightPuzzle.IsSolvable: proves that the loop computes the parity test. It does not prove the converse, that every board with even parity can be reached by clicks; the game does not rely on it.
- EightPuzzle.CheckWin: the effect also opens the analytics panel (line 371), which is not modelled.
- EightPuzzle.Replay: a run of plain moveTile calls, without the win effect between them. A run that passes through the solved board keeps going in Replay but stops in the game; the game's clicks are EightPuzzle.Play, and EightPuzzle.PlayFollowsReplay says when the two agree.
- EightPuzzle.MoveTileUndo: about two moveTile calls, not two clicks in the game. If the first call solves the puzzle the game ignores the second click; EightPuzzle.ClickUndo states the game's behaviour.
- EightPuzzle.ScrambleIsPlayable: the walk is replayed by moveTile calls. In the game it is reproduced by clicks only while no intermediate board is the solved one (EightPuzzle.PlayFollowsReplay).
- EightPuzzle.Scramble: states only the length of the result. Its contents are described by ScrambleKeepsParity and ScrambleIsPlayable.

## Notes on the code

- The neighbour loop (lines 124-133) does re-score a neighbour that is already open when the step through the current cell is strictly cheaper. The model follows the code.
- The comparison in the `reduce` is strict (line 106), so among open cells with equal fScore the last one is chosen, not the first. The model follows the code.
- `isSolved` uses `every` over the grid it is given. A shorter grid passes when it agrees with the start of the solved board. A longer one fails, because its extra cells are compared with `undefined`. The model follows the code.
