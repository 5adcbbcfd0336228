# PyneSweeper board logic in Dafny

PyneSweeper is a one-window Minesweeper game written with tkinter. This
project models its board logic, leaving the widgets out:

- the single pass of `gen_mines` that places the mines and counts them;
- `open` with its recursive flood fill through the eight `DELTAS` offsets;
- `display`, which disables a button and sets its text and `COLORS` entry;
- `over`, which ends the game and reveals the hidden mines;
- the click guards `left_click` and `right_click`;
- the reset done by `resize_field`.

Modules:

- `Field` — board geometry: cells indexed `[x, y]`, their in-bounds
  neighbours, the `DELTAS` offsets in the game's order, the sets of all cells
  and of the mine cells, and `CellValue`. `CellValue` is the value a cell must
  hold once the mines are drawn: the sentinel `-1` for a mine, otherwise the
  number of neighbouring mines.
- `Generation` — the single column-by-column pass. `PassValue` is the value a
  cell holds just before the pass reaches a given cell, and the lemmas follow it
  one visited cell at a time. `PlaceMine` is the 3x3 window loop over the field
  array.
- `Flood` — set-level facts about the cells a flood fill reveals. `Rooted`
  records, through a parent map and a depth that strictly decreases along
  parents, that every revealed cell was reached from the clicked cell through
  revealed blank cells.
- `Sweep` — the column-by-column sweep of `over`, which reveals every hidden
  mine it passes.
- `Labels` — `COLORS`, the text a button shows, and the flag toggle.
- `Sweeper` — class `PyneSweeper`. It holds the `field` array, one `Button`
  per cell (the `state` attribute, the text and the `disabledforeground`
  colour), and `gameOver`. Its methods follow the game's methods statement by
  statement; the `DELTAS` loop of `open` is `OpenNeighbours`, and one
  iteration of it is `OpenDelta`. Ghost sets `shown`, `flags` and `hidden`
  track the revealed cells, the flagged cells and a shrinking superset of the
  hidden cells.
  `hidden` is the measure that proves the flood fill's recursion terminates.

Randomness is an input. The draw `rnd() < mine_prob` for cell `(x, y)` is
`draws[x][y]` in a caller-supplied grid of booleans, so generation is
deterministic.

Two facts about the code that the model makes explicit:

- **Single-pass counting is exact.** `gen_mines` places each mine and bumps
  its neighbours in the same pass (pyne_sweeper.py:83-90). A cell that is not
  a mine never holds `-1`, so every mine next to it increments it. A mine's
  partial count is overwritten by the sentinel, its only meaningful value.
  `Generation.PassEnd` proves the single pass equals placing all mines first
  and counting afterwards.
- **Flagged cells are opened.** `open` tests only the `state` attribute
  (pyne_sweeper.py:107), never the text, so a flagged hidden cell is opened
  by a left click and by the flood fill, and its flag mark is replaced.

## Model

| member | source | states |
|---|---|---|
| Field.DeltaIndex | pyne_sweeper.py:9 | every non-zero offset of at most one step in each direction appears in DELTAS, at the returned index |
| Field.DeltasAreSteps | pyne_sweeper.py:9 | every DELTAS entry is a non-zero offset of at most one step in each direction |
| Field.RingIsAdjacency | pyne_sweeper.py:87-89 | a cell lies in the 3x3 window around (x, y) minus its centre exactly when it is adjacent to (x, y) |
| Field.NeighboursAtMostEight | pyne_sweeper.py:87-89 | a cell has at most eight in-bounds neighbours |
| Field.CellValue | pyne_sweeper.py:81-90 | a cell's value is the sentinel -1 exactly when it was drawn as a mine, and always lies in -1..8 |
| Field.NeighbourSymmetry | pyne_sweeper.py:87-90 | adjacency between in-bounds cells is symmetric |
| Field.BlankCellHasNoMineNeighbours | pyne_sweeper.py:111-114 | no neighbour of a cell holding 0 is a mine |
| Field.StepIsNeighbour | pyne_sweeper.py:112-113 | a DELTAS step that stays on the board lands on a neighbour, and the start is a neighbour of the landing cell |
| Field.BlankNeighbourIsSafe | pyne_sweeper.py:111-114 | a neighbour of a cell holding 0 does not hold the mine sentinel |
| Field.StepFromBlankIsSafe | pyne_sweeper.py:111-114 | an in-bounds DELTAS step from a cell holding 0 never lands on a mine |
| Field.StepsInNext | pyne_sweeper.py:112-114 | once the k-th in-bounds step is revealed, the first k + 1 steps are revealed, since revealed cells stay revealed |
| Field.StepsInAll | pyne_sweeper.py:112-114 | the in-bounds cells reached by all eight DELTAS steps are exactly the cell's neighbours, so revealing them reveals every neighbour |
| Generation.PassStart | pyne_sweeper.py:82 | before the pass, every cell holds 0 |
| Generation.PassMine | pyne_sweeper.py:86-90 | handling a mine (x, y) sets (x, y) to -1, adds one to each adjacent cell not holding -1, and leaves every other cell alone |
| Generation.SeenAfterMine | pyne_sweeper.py:87-90 | handling a mine adds it to the mines counted around a cell exactly when it is that cell's neighbour, and it was not counted before |
| Generation.PassSafe | pyne_sweeper.py:85 | handling a cell not drawn as a mine changes no value |
| Generation.PassNextColumn | pyne_sweeper.py:83-84 | the state after a column's last cell is the state before the next column's first cell |
| Generation.PassEnd | pyne_sweeper.py:81-90 | after the pass every cell holds exactly the value of CellValue: -1 for a mine, otherwise the number of neighbouring mines |
| Generation.PlaceMine | pyne_sweeper.py:86-90 | the 3x3 window loop leaves every cell of the field with the value the pass assigns after handling the mine (x, y) |
| Flood.SpreadJoin | pyne_sweeper.py:111-114 | two successive floods in which every revealed blank had its neighbours revealed combine into one |
| Flood.FloodTrans | pyne_sweeper.py:111-114 | two successive flood steps (mine-free, flags cleared exactly on revealed cells, blanks spread) compose |
| Flood.FloodFrom | pyne_sweeper.py:107-114 | revealing a safe cell and then flooding from it, once its neighbours are revealed, is itself such a flood |
| Flood.MineThenMines | pyne_sweeper.py:109-110 | revealing a mine and then every mine reveals exactly the original cells plus all mines, none of which needs neighbours revealed |
| Flood.Graft | pyne_sweeper.py:111-114 | the cells opened from a neighbour of a blank cell join the cells reached from that blank cell, every one of them still linked back to it through revealed blank cells |
| Flood.RootedStep | pyne_sweeper.py:112-114 | one iteration of the DELTAS loop keeps every cell revealed so far linked back to the blank cell through revealed blank cells |
| Flood.PathToRoot | pyne_sweeper.py:106-114 | every cell a flood reveals has a chain of adjacent cells back to the clicked cell, every link after the first a revealed blank cell |
| Flood.FloodIsDetermined | pyne_sweeper.py:106-114 | two sets of newly revealed cells, each reached from the clicked cell and each holding every neighbour of its blank cells, are equal: the flood reveals exactly one set |
| Sweep.SweptStep | pyne_sweeper.py:127-129 | visiting (x, y) in the sweep of over adds it to the revealed cells exactly when it is a mine |
| Sweep.SweptNextColumn | pyne_sweeper.py:126-127 | the sweep's state after a column is its state before the next |
| Sweep.SweptAll | pyne_sweeper.py:124-129 | after the sweep the revealed cells are those revealed before plus every mine |
| Labels.Decimal | pyne_sweeper.py:120 | a count is shown as a non-empty string of decimal digits that spell it, with no leading zero, one digit exactly for values below 10 |
| Labels.TextEmptyIffBlank | pyne_sweeper.py:101 | a button's text is empty exactly when it is blank, so the truthiness test of right_click tests for the blank face |
| Labels.LabelDeterminesValue | pyne_sweeper.py:120 | distinct cell values in -1..8 show distinct texts |
| Labels.LabelIsNeverFlag | pyne_sweeper.py:120 | no revealed value shows the flag text "X" |
| Labels.ToggleTwice | pyne_sweeper.py:100-104 | on a hidden cell the toggle flips blank and flag, and toggling twice restores the text |
| Sweeper.NewGrid | pyne_sweeper.py:82 | a fresh w x h grid filled with one value |
| Sweeper.PyneSweeper.constructor | pyne_sweeper.py:51-58 | a new game has fresh grids, is not over, every button is hidden, blank and uncoloured, and the field holds CellValue for the draws |
| Sweeper.PyneSweeper.ResizeField | pyne_sweeper.py:60-79 | resizing yields fresh grids of the new size, the game not over, no cell revealed or flagged, and the field generated from the draws |
| Sweeper.PyneSweeper.GenMines | pyne_sweeper.py:81-90 | the one-pass generation leaves every cell holding its CellValue |
| Sweeper.PyneSweeper.Display | pyne_sweeper.py:116-122 | the button is disabled and shows the label of its value in the COLORS entry n + 1, which is always in range; no other button changes |
| Sweeper.PyneSweeper.Over | pyne_sweeper.py:124-129 | the game is over, the revealed cells become those revealed before plus every mine, every mine button ends disabled showing "@" in COLORS[0], and no button of a non-mine cell changes |
| Sweeper.PyneSweeper.Open | pyne_sweeper.py:106-114 | a revealed cell is left alone; otherwise it is revealed and revealed cells stay revealed; the game ends exactly when it is a mine, and then every mine is revealed; a 0 cell has all its neighbours revealed; a positive cell reveals only itself; from a safe cell nothing revealed is a mine, and every revealed cell is reached from (x, y) through revealed blank cells (Rooted), which with FloodIsDetermined fixes the revealed set; the recursion terminates as the hidden cells shrink |
| Sweeper.PyneSweeper.OpenNeighbours | pyne_sweeper.py:111-114 | the DELTAS loop of a revealed 0 cell reveals every in-bounds neighbour, reveals no mine, leaves the game running, and every cell it reveals is reached from the 0 cell through revealed blank cells |
| Sweeper.PyneSweeper.OpenDelta | pyne_sweeper.py:112-114 | one DELTAS step: the in-bounds neighbour is revealed, no mine is revealed, the game keeps running, and every cell it reveals is reached from the 0 cell through revealed blank cells |
| Sweeper.PyneSweeper.RightClick | pyne_sweeper.py:97-104 | while the game runs, a hidden button's text is toggled and the flag set follows it; otherwise, or on a revealed cell, nothing changes |
| Sweeper.PyneSweeper.LeftClick | pyne_sweeper.py:92-95 | once the game is over nothing changes; otherwise the cell is opened with Open's guarantees: a revealed cell is left alone, the game ends exactly on a mine and then every mine is revealed, a 0 cell has all its neighbours revealed, a positive cell reveals only itself, a safe click reveals no mine and only cells reached from (x, y) through revealed blank cells |

## Left out

- The tkinter window, titles, fonts, grid layout, relief, the `Combobox` class,
  event binding and `mainloop` (pyne_sweeper.py:11-58, 69-78). They are
  rendering only. A click handler takes the clicked cell's `(x, y)` instead of
  the event's widget.
- The toolkit's `'disabled'` button state and `'sunken'` relief, set by
  `display`. They only change how a button looks; `Button.state` models the
  Python attribute `state`, which is what `open` tests.
- The random number generator and the probability 0.1. A caller-supplied grid
  of draws replaces `rnd() < mine_prob`.
- The `int16` storage of `field`. Values are unbounded integers; every value is
  proved to lie in -1..8, so the 16-bit width never matters.
- `solve` and `solve_one`. They are an unfinished stub: a float array, a
  commented-out call and a timer callback naming an unbound function.
- Parsing the size text `'WxH'` from the combobox. The dimensions are
  parameters.
- Destroying the old buttons and field in `resize_field`. The model allocates
  fresh arrays instead.
- Python's recursion depth limit. The model proves the recursion of `open`
  terminates but does not bound its depth.
- The toolkit's default foreground colour before a button is disabled. It is
  modelled as the empty string.
