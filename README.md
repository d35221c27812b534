# Game of Life generation step of Game.js

`Game.js` draws a Game of Life board in the browser and advances it one
generation at a time. This project models the part that decides the next
generation:

- `createView` builds a `height` × `width` grid of cell elements. Every cell
  starts dead and stores a pair of coordinates in its dataset.
- `getNeighbors(y, x)` lists the eight coordinates around `(y, x)`. It does
  not filter them and does not wrap around.
- `nextGen` scans every cell of the unchanged grid and counts the live cells
  among the eight coordinates around the centre the cell stores. It puts live
  cells with fewer than two or more than three live neighbours on `toDie`, and
  dead cells with exactly three on `toLive`. It then revives every cell of
  `toLive` and kills every cell of `toDie`.
- `killCell` and `reviveCell` overwrite the state of one cell.

The model has three modules:

- `Life` (`life.dfy`) holds the values and specification functions:
  - the grid of states (`Grid`, true for `'alive'`) and the dataset record
    `Block`;
  - `StoredCenter`, the centre each cell stores;
  - `GetNeighbors`, `CountLive` and `LiveNeighbors`;
  - the rule (`Dies`, `Born`, `Next`) and Conway's rule B3/S23 (`Conway`),
    which is written independently of the two lists;
  - the two lists as functions of the old grid (`Births`, `Deaths`), in scan
    order;
  - the overwrite of one cell (`Set`) and of a whole list (`ApplyAll`);
  - the two generations. `SourceStep` classifies each cell around its stored
    centre, as the code does. `LifeStep` classifies each cell around itself.
- `GameView` (`game.dfy`) is the `Game` object as a class over
  `array2<Block>`. Its methods follow the source's loops:
  - `CreateView`, `KillCell`, `ReviveCell` and `NextGen`;
  - `AliveNeighbors`, the counting loop;
  - `Classify`, the classification of one cell;
  - `ScanRow` and `Scan`, the two scan loops;
  - `ApplyLists`, the two apply loops.

  Each method is proved against the functions of `Life` through the ghost view
  `States()`.
- `LifeProperties` (`properties.dfy`) proves what one generation guarantees:
  - the count is the number of live adjacent grid cells;
  - it is exactly what the two lists hold, each list is ordered, and the two
    lists are disjoint;
  - the lists may be applied in either order;
  - an all-dead grid is a fixed point;
  - the mutators are idempotent;
  - the stored centres give Conway's rule everywhere except column 0 below
    row 0;
  - the block is a still life and the blinker has period two;
  - the column-0 centre breaks both (see Findings).

Column 0 stores `x = 0, y = i` (Game.js:35-36). Every other column stores
`x = i, y = w` (Game.js:47-48). `nextGen` calls `getNeighbors(blockX, blockY)`
(Game.js:189). So the model keeps the centre explicit:
`StoredCenter(i, w) = if w == 0 then (0, i) else (i, w)`. `NextGen` is proved
to compute `SourceStep`, the generation the code computes as written.

## Model

| member | source | states |
|---|---|---|
| `Life.GetNeighbors` | Game.js:117-133 | exactly eight coordinates, and the centre is never among them |
| `Life.CountLive` | Game.js:193-201 | the count over a coordinate list is never more than the list's length |
| `Life.LiveNeighbors` | Game.js:189-201 | the count of live neighbours is at most 8 |
| `Life.Next` | Game.js:204-224 | a cell's new state after both lists are applied is Conway's B3/S23 rule for its count |
| `Life.StoredCenter` | Game.js:35-48 | the centre a cell stores is the cell itself exactly when the cell is off column 0 or is (0, 0); otherwise, in column 0 of row i, it is (0, i) |
| `Life.SourceStep` | Game.js:179-226 | the next grid keeps the old grid's shape, and each cell is `Next` of its state and its count around `StoredCenter`; `TwoPhaseIsSimultaneous` ties it to the two lists |
| `Life.Births` | Game.js:180-217 | `toLive`: every listed cell is on the grid, and the list is in strictly increasing row-major order |
| `Life.Deaths` | Game.js:180-217 | `toDie`: every listed cell is on the grid, and the list is in strictly increasing row-major order |
| `Life.ApplyAll` | Game.js:219-224 | overwriting the cells of a list one after another keeps the grid's shape; `ApplyAllAt` gives its effect on each cell |
| `Life.RowSelectSpec` | Game.js:184-216 | the cells one row scan collects are exactly the marked cells of that row seen so far, in increasing column order |
| `Life.SelectSpec` | Game.js:183-217 | the full scan collects exactly the marked grid cells, each in bounds, in row-major order |
| `Life.Set` | Game.js:234-250 | overwriting one cell changes that cell to the given state and no other cell, and keeps the grid's shape |
| `Life.ApplyAllAt` | Game.js:219-224 | after overwriting every cell of a list with a state, a cell holds that state exactly when it is on the list, and any other cell keeps its old state |
| `Life.TwoListsAt` | Game.js:219-224 | reviving one list and then killing a second leaves a cell dead if it is on the second list, alive if it is on the first only, and unchanged otherwise |
| `Life.ApplyMarked` | Game.js:219-224 | applying the cells that two mark grids select, births first, yields the grid those marks determine cell by cell |
| `Life.TwoPhaseIsSimultaneous` | Game.js:179-226 | reviving `toLive` and then killing `toDie`, both built from the old grid, gives the same grid as updating every cell at once |
| `GameView.Game.CreateView` | Game.js:30-54 | a fresh `height` × `width` grid, every cell dead; column 0 of row i stores (0, i) and every other cell (i, w) stores (i, w) |
| `GameView.Game.KillCell` | Game.js:234-238 | the new grid is the old one with cell (y, x) dead, and the stored coordinates are kept |
| `GameView.Game.ReviveCell` | Game.js:246-250 | the new grid is the old one with cell (y, x) alive, and the stored coordinates are kept |
| `GameView.Game.AliveNeighbors` | Game.js:189-201 | the counter equals the number of in-bounds live cells among the eight coordinates around the centre |
| `GameView.Game.Classify` | Game.js:186-214 | the cell is put on `toDie` or `toLive` exactly as the rule marks it, counted around its stored centre |
| `GameView.Game.ScanRow` | Game.js:184-216 | one row's scan appends to each list exactly that row's marked cells, in column order |
| `GameView.Game.Scan` | Game.js:180-217 | the two lists are exactly the births and deaths of the unchanged grid, in row-major order |
| `GameView.Game.ApplyLists` | Game.js:219-224 | the new grid is the old one with every `toLive` cell revived and then every `toDie` cell killed |
| `GameView.Game.NextGen` | Game.js:179-226 | the new grid is the generation of the old one under the stored centres, and the stored coordinates are kept |
| `LifeProperties.NeighborsAreAdjacent` | Game.js:117-133 | the eight coordinates are exactly the cells at most one row and one column away, other than the centre, each listed once |
| `LifeProperties.CountLiveIsCardinality` | Game.js:193-201 | counting a list without repeats gives the number of distinct live grid cells on it |
| `LifeProperties.CountIsLiveAround` | Game.js:193-201 | the count is the number of live grid cells adjacent to the centre, so off-grid coordinates add nothing and nothing wraps around |
| `LifeProperties.CountUnfold` | Game.js:193-201 | the count is the sum, over the eight neighbours in getNeighbors' order, of one for each live grid cell |
| `LifeProperties.CornerCountsThree` | Game.js:196-199 | a corner cell whose three grid neighbours are alive counts exactly 3 |
| `LifeProperties.DeadCountIsZero` | Game.js:193-201 | on an all-dead grid every count is 0 |
| `LifeProperties.BirthsAre` | Game.js:210-214 | a coordinate is on `toLive` exactly when it is a dead grid cell with count 3 around its stored centre |
| `LifeProperties.DeathsAre` | Game.js:204-208 | a coordinate is on `toDie` exactly when it is a live grid cell whose count around its stored centre is below 2 or above 3 |
| `LifeProperties.SchedulesAreOrdered` | Game.js:183-217 | each list is in row-major order and holds no cell twice |
| `LifeProperties.BirthsDeathsDisjoint` | Game.js:204-214 | no cell is on both lists |
| `LifeProperties.ApplyOrderIrrelevant` | Game.js:219-224 | two in-bounds lists with no cell in common give the same grid in either order |
| `LifeProperties.KillFirstSameGeneration` | Game.js:219-224 | killing `toDie` first and reviving `toLive` second gives the same generation as the order nextGen uses |
| `LifeProperties.SetIdempotent` | Game.js:234-250 | killing or reviving the same cell twice is the same as doing it once |
| `LifeProperties.DeadNeighborsZero` | Game.js:193-201 | every centre on an all-dead grid has count 0 |
| `LifeProperties.DeadCellStays` | Game.js:204-214 | on an all-dead grid every cell keeps its state under both generations |
| `LifeProperties.DeadSchedulesEmpty` | Game.js:183-217 | on an all-dead grid both lists are empty |
| `LifeProperties.DeadGridIsFixed` | Game.js:179-226 | an all-dead grid is a fixed point of nextGen and of Conway's rule |
| `LifeProperties.SourceMatchesLife` | Game.js:45-48 | outside column 0, and at (0, 0), the stored centre is the cell itself, and nextGen agrees with Conway's rule there |
| `LifeProperties.BlockNeighbors` | Game.js:193-201 | around a 2-by-2 block every block cell counts 3 and every other point at most 2 |
| `LifeProperties.BlockCellStays` | Game.js:204-214 | every cell of a grid holding only a block keeps its state under Conway's rule |
| `LifeProperties.BlockIsStillLife` | Game.js:204-214 | a block is a still life under Conway's rule |
| `LifeProperties.SourceBlockCellStays` | Game.js:186-214 | every cell keeps its state under nextGen when the block is off row 0 and column 0 |
| `LifeProperties.SourceBlockIsStillLife` | Game.js:179-226 | nextGen keeps a block that is off row 0 and column 0 |
| `LifeProperties.HorizontalNeighbors` | Game.js:204-214 | around a horizontal blinker, Conway's rule makes a point live exactly when it is in the vertical phase |
| `LifeProperties.VerticalNeighbors` | Game.js:204-214 | around a vertical blinker, Conway's rule makes a point live exactly when it is in the horizontal phase |
| `LifeProperties.HorizontalSuccessor` | Game.js:204-214 | any grid that follows Conway's rule from a horizontal blinker with room above and below is the vertical blinker |
| `LifeProperties.VerticalSuccessor` | Game.js:204-214 | any grid that follows Conway's rule from a vertical blinker with room left and right is the horizontal blinker |
| `LifeProperties.HorizontalBlinkerTurns` | Game.js:204-214 | under Conway's rule a horizontal blinker with room above and below turns vertical |
| `LifeProperties.VerticalBlinkerTurns` | Game.js:204-214 | under Conway's rule a vertical blinker with room left and right turns horizontal |
| `LifeProperties.VerticalPhaseHasRoom` | Game.js:204-214 | the vertical phase has room left and right, where the ends of the horizontal phase were |
| `LifeProperties.BlinkerOscillates` | Game.js:204-214 | a blinker with room around it has period two under Conway's rule |
| `LifeProperties.SourceKeepsBlinkerEnd` | Game.js:35-36 | in a horizontal blinker in row 1, columns 0-2, nextGen keeps cell (1, 0) alive, because it counts around (0, 1) |
| `LifeProperties.LifeKillsBlinkerEnd` | Game.js:204-214 | Conway's rule kills that cell (1, 0), which has one live neighbour |
| `LifeProperties.SourceBlinkerDiffers` | Game.js:35-36 | nextGen does not turn that blinker vertical, though Conway's rule does whenever rows 0 to 2 exist |
| `LifeProperties.SourceTopBlockGrows` | Game.js:35-36 | a block in rows 0-1 and columns 1-2 is still under Conway's rule, but nextGen gives birth to cell (1, 0) |

## Left out

- DOM work is not modelled: element creation, `classList` changes, the row
  elements, the buttons and their listeners (Game.js:10, 31-34, 38-41, 56-86,
  235-236, 247-248). Only `dataset.state` and the stored coordinates decide a
  generation.
- The window-based size in the constructor and the string that `toFixed()`
  gives for `width` are not modelled (Game.js:13-14). `width` and `height` are
  naturals.
- `start` and `stop` only schedule and cancel `nextGen` on a timer
  (Game.js:159-173), so they are not modelled.
- `randomCells` and `shuffleArray` are not modelled (Game.js:93-152). They
  depend on `Math.random`.
- `parseInt` on the dataset strings is not modelled (Game.js:120-121). The
  stored coordinates are integers.
- The states `'alive'` and `'dead'` are modelled as `true` and `false`.
- `GameView.Game.KillCell` and `GameView.Game.ReviveCell` require an
  in-range cell. In the source an out-of-range row throws a `TypeError`, and
  so does a column below 0 or at `width` or beyond, where `blocks[y][x]` is
  `undefined`. The exception is column 0: it is the row's element itself
  (Game.js:42-43), so `blocks[y][0]` exists even when `width` is 0. No caller
  inside the model reaches these cases.
- The default arguments of `createView(width = 100, height = 100)`
  (Game.js:25) are not modelled: `CreateView` always takes both sizes.
- The model stores the cells in an `array2`. Game.js instead keeps each
  cell of row i in a property of that row's column-0 element (Game.js:42-53).
- `nextGen`'s loops are split into helper methods: the counting loop
  (`AliveNeighbors`), the body (`Classify`), the inner and outer scan loops
  (`ScanRow`, `Scan`) and the two apply loops (`ApplyLists`). Each keeps the
  source's order of visits. The lists hold `(y, x)` pairs in place of
  `{ y, x }` objects.

## Findings

| source | as written | input that shows it | evidently intended | confidence | as-written member | corrected member |
|---|---|---|---|---|---|---|
| Game.js:35-36 | column 0 stores `y = i, x = 0`, while the other columns store `y = w, x = i`. Since line 189 calls `getNeighbors(x, y)`, the cell in column 0 of row i is classified around (0, i) | a horizontal blinker in row 1, columns 0-2: cell (1, 0) counts the three live cells around (0, 1) and stays alive, so the blinker does not turn vertical. A block in rows 0-1, columns 1-2 makes cell (1, 0) come alive | column 0 storing `x = i, y = 0`, so that every cell is classified around itself, as `LifeStep` does | high, not executed | `LifeProperties.SourceBlinkerDiffers` | `LifeProperties.BlinkerOscillates` |

`SourceStep` is the generation as written, with `SourceBlinkerDiffers`,
`SourceKeepsBlinkerEnd` and `SourceTopBlockGrows` exhibiting the
discrepancy. `LifeStep` is the corrected generation, with
`BlinkerOscillates` and `BlockIsStillLife` proved about it.
`SourceMatchesLife` shows that the two agree everywhere except column 0
below row 0. `NextGen` follows the code and computes `SourceStep`.
