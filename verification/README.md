# Black-hole sweeper: the board engine in Dafny

This project models the board engine of *game_sapper_prototype*, a
Minesweeper game played in a Jupyter notebook. The mines are called
"black holes". A game is an n x n grid of cell buttons. Each cell has a
number k = row*n + col + 1 in 1 .. n*n, row-major. The engine is modelled
in five modules. Two helper modules, `Stencil` and `Cardinality`, hold
the counting lemmas.

- **Topology** (`topology.dfy`, with the counting helpers in
  `stencil.dfy` and `cardinality.dfy`).
  - Every cell gets the nine candidates of the 3x3 stencil centred on it.
  - The code deletes the right-hand stencil column for last-column cells
    and the left-hand one for first-column cells.
  - It then drops every number outside 1 .. n*n.
  - `Nbrs(k, n)` is the resulting neighbour set, which contains `k` itself.
- **Minefield** (`minefield.dfy`).
  - The board stores the adjacency table, the black holes and the
    `adjacent_black_hole` count of every cell.
  - The random draw of `np.random.choice` is the parameter `order`, a
    permutation of the cells. The black holes are its first m entries.
  - The count of a cell is built from the mines' side: one for each black
    hole whose table row lists the cell. Because the relation is symmetric,
    this equals the number of black holes in the cell's own row.
  - `AdjacentHolesMatrix` is the n x n view of the counts, with -1 for a
    black hole.
- **Flood fill** (`floodfill.dfy`).
  - `CellsToOpen` is the frontier loop of `get_all_cells_to_open`.
  - A ghost set of earlier frontiers gives the loop's termination measure.
  - The result is characterised independently as `Region`: every
    neighbour of every cell reachable from the click by stepping through
    cells with count 0.
- **Clicks** (`clicks.dfy`).
  - A game holds the open flags (`cell_open`) and the disabled flags of
    the buttons.
  - `OnClickCell` is the click handler:
    - a black hole loses;
    - a safe cell with a non-zero count opens that cell;
    - a zero-count cell opens its region.
  - After a safe click the game is won exactly when the number of open
    cells reaches n*n - m.
  - The packaged class and the notebook differ in which buttons they
    disable on a loss and on a win. The `Copy` parameter selects the
    behaviour.
- **Controls** (`controls.dfy`).
  - The difficulty dropdown and the two sliders of the main menu.
  - The preset table and the mine-limit rule max(size*size - 9, 1).
  - The chain of handlers one user action sets off. A handler sets other
    widgets, and their handlers then run in turn. ipywidgets sliders clamp
    a value to their range and lower their value when their maximum drops
    below it.
  - The start button, which draws a game from the menu's values.

The engine exists twice in the source with the same algorithm:
- the class `Game` in `application/simulate_data.py`, driven by `Utils`
  in `ui/widget_utils.py`;
- free functions in the notebook export `main.py`.

Each member below cites the packaged copy. The notebook counterparts are:
- `find_all_potential_adjacents` main.py:25-38 (`PotentialAdjacent`);
- `find_exact_adjacents` main.py:44-63 (`FindExactAdjacent`, `Nbrs`);
- `generate_black_holes` main.py:69-79 (`GenerateBlackHoles`);
- `calculate_adjacent_black_holes` main.py:85-93 (`AdjacentBlackHoles`);
- `get_adjacent_holes_matrix` main.py:99-107 (`AdjacentHolesMatrix`);
- `game` main.py:142-169 (`NewBoard`, `NewGame`);
- the flood-fill loop inside `on_click_cell` main.py:359-376
  (`CellsToOpen`);
- `on_click_cell` main.py:335-390 (`OnClickCell` with `Copy.Notebook`);
- `open_black_holes` main.py:175-184 and `disable` main.py:187-190
  (`OpenBlackHoles`, `DisableOnWin` with `Copy.Notebook`);
- `Difficulty_dict` main.py:211 (`Presets`);
- the handlers main.py:278-301 (`ChangeDifficulty`, `ChangeMatrix`,
  `ChangeNHoles`).

The notebook's start button `on_button_clicked` (main.py:308-324) has no
model. It reads the sliders through `ui_h.children` (main.py:315-316), but
`ui_h` is a local variable of `combine_widgets` (main.py:403). As written,
that handler therefore stops with a `NameError` before it draws a board.
`StartGame` models the packaged start button, which reads the slider
values directly (application/simulate_data.py:20-21).

Facts about the code that the model keeps:
- Cells are numbered from 1 (application/simulate_data.py:55-63, 81).
- A neighbour set includes the cell itself. A corner cell therefore has 4
  neighbours, a border cell 6 and an interior cell 9. The count of a black
  hole includes the hole itself, so it is at least 1.
- Drawing m = n*n black holes is allowed. Only m < 0 and m > n*n fail,
  because `np.random.choice` without replacement refuses exactly those.
- Clicking an open cell runs the same handler again. It sets flags that
  are already set, so the open cells do not change (`OnClickCell`).
- The packaged copy disables only the safe cells on a loss and only the
  unopened cells on a win. The notebook disables every cell in both cases.

## Model

| member | source | states |
|---|---|---|
| `Topology.PotentialAdjacent` | application/simulate_data.py:43-66 | nine candidates in fixed stencil order: position 3*(dr+1) + (dc+1) holds the cell dr rows and dc columns away, so positions 0, 3, 6 are the left-hand column and 2, 5, 8 the right-hand one, and position 4 is the cell itself |
| `Topology.Nbrs` | application/simulate_data.py:68-105 | every neighbour listed for any number is a cell in 1 .. n*n |
| `Topology.CellsSize` | application/simulate_data.py:78-81 | the table has exactly n*n cells |
| `Topology.NbrsGeometry` | application/simulate_data.py:90-103 | x is a neighbour of k if and only if both are cells whose rows and columns each differ by at most one; the column deletions leave no wrap-around candidate and lose no true neighbour |
| `Topology.NbrsSymmetric` | application/simulate_data.py:90-103 | x is a neighbour of k exactly when k is a neighbour of x |
| `Topology.NbrsContainsSelf` | application/simulate_data.py:54-64 | every cell is listed among its own neighbours |
| `Topology.NbrsSize` | application/simulate_data.py:54-103 | the number of neighbours is the product of the row span and the column span (2 on a border line, 3 inside): 4 for a corner, 6 for a border cell, 9 inside |
| `Topology.NbrsAtMostNine` | application/simulate_data.py:54-103 | no number has more than nine neighbours |
| `Minefield.FindExactAdjacent` | application/simulate_data.py:68-105 | the table has a row for every cell and no other; each row holds the cell itself and at most nine cells of the board, exactly those near it, and the rows are symmetric |
| `Minefield.GenerateBlackHoles` | application/simulate_data.py:107-119 | the draw succeeds exactly when 0 <= m <= n*n and a negative m is its own error; on success exactly m distinct board cells are black holes, and a cell is one exactly when it is among the first m of the draw order |
| `Minefield.AdjacentBlackHolesMeaning` | application/simulate_data.py:121-134 | over a symmetric table, the count grouped by the `adjacent` column (black holes whose row lists the cell) equals the number of black holes in the cell's own row |
| `Minefield.BuiltBoard` | application/simulate_data.py:125-134 | a board whose count column is built that way satisfies the board invariant: every cell's count is the number of black holes among its neighbours |
| `Minefield.NewBoard` | application/simulate_data.py:17-37 | building a board succeeds exactly when 0 <= m <= n*n; the board satisfies its invariant, uses the neighbour table, has m black holes, and n*n - m safe cells to win |
| `Minefield.CountBounds` | application/simulate_data.py:121-134 | a count lies in 0 .. 9, and a black hole's count is at least one because it counts itself |
| `Minefield.ZeroIsSafe` | application/simulate_data.py:121-134 | a cell with count 0 is not a black hole, and neither is any of its neighbours |
| `Minefield.AdjacentHolesMatrix` | application/simulate_data.py:175-192 | the matrix view has n rows of n entries |
| `Minefield.AdjacentHolesMatrixMeaning` | application/simulate_data.py:182-190 | entry (row, col) belongs to the cell row*n + col + 1; it is -1 exactly when that cell is a black hole, and the cell's count otherwise |
| `Minefield.EntryValue` | application/simulate_data.py:182-190 | the masking count * (1 xor flag) - flag gives -1 exactly for a black hole and the count for any other cell |
| `FloodFill.CellsToOpen` | application/simulate_data.py:204-229 | the loop ends after at most one round per zero-count cell plus one; its result is the region of the click, is closed, holds every neighbour of the clicked cell, and holds no black hole when the clicked cell has count 0 |
| `FloodFill.FillRound` | application/simulate_data.py:215-227 | one round keeps the loop state: each new frontier is fresh, consists of zero-count cells reachable from the click, and the set of cells not yet used as a frontier shrinks |
| `FloodFill.FrontierStep` | application/simulate_data.py:217-224 | the next frontier holds only fresh zero-count cells reachable from the click, and every zero-count cell around the frontiers so far is a frontier now or next |
| `FloodFill.FillExit` | application/simulate_data.py:215-229 | when the frontier is empty, the accumulated cells are exactly the region, closed, and mine-free for a zero-count start |
| `FloodFill.RegionWithin` | application/simulate_data.py:204-229 | the region lies inside every closed set that holds the clicked cell's neighbours: it is the least such set |
| `FloodFill.RegionClosed` | application/simulate_data.py:204-229 | the region holds all neighbours of each zero-count cell in it and all neighbours of the clicked cell |
| `FloodFill.RegionAvoidsMines` | application/simulate_data.py:204-229 | the region of a zero-count cell holds no black hole |
| `FloodFill.ClosedFollowsPath` | application/simulate_data.py:215-227 | a closed set holding the neighbours of a walk's first cell holds the neighbours of its last |
| `Clicks.NewGame` | application/simulate_data.py:17-37 | a new game starts with no cell open and no button disabled, on a valid board with n*n - m safe cells |
| `Clicks.UpdateProgress` | ui/widget_utils.py:89-97 | the open cells become the old ones plus the masked cells of the board; the recount is the number of open cells, never drops, and stays the same exactly when every masked cell was already open |
| `Clicks.OpenBlackHoles` | ui/widget_utils.py:156-168 | on a loss no cell is opened; the packaged copy disables exactly the safe cells besides those already disabled, the notebook every cell; either way only black holes stay enabled |
| `Clicks.DisableOnWin` | ui/widget_utils.py:83-87 | on a win no cell is opened; the packaged copy disables exactly the unopened cells besides those already disabled, the notebook every cell; either way only open cells stay enabled |
| `Clicks.OpenCell` | ui/widget_utils.py:69-73 | clicking a safe cell with a non-zero count opens that cell and nothing else, keeps the game valid, and changes nothing when it was open |
| `Clicks.OpenRegion` | ui/widget_utils.py:74-81 | clicking a zero-count cell opens exactly its region, keeps the game valid, and changes nothing when the cell was already open |
| `Clicks.OpenedRegion` | ui/widget_utils.py:74-81 | opening the region keeps only safe cells open and the open set closed; an open zero-count cell already has its whole region open |
| `Clicks.OpenedMask` | ui/widget_utils.py:96-97 | setting the flags of a closed set of safe cells keeps the game valid |
| `Clicks.OpenSafe` | ui/widget_utils.py:67-81 | a safe click opens the cell or its region as its count says; the count it returns never exceeds n*n - m and reaches it exactly when every safe cell is open |
| `Clicks.OnClickCell` | ui/widget_utils.py:52-87 | a click loses exactly on a black hole, and then only disables buttons; otherwise it opens the cell or its region, never a black hole, and a re-click changes nothing; the game is won exactly when the open count reaches n*n - m, which is exactly when every safe cell is open, and then the buttons are disabled as the copy does |
| `Clicks.SafeCount` | ui/widgets.py:115-120 | the number of cells to open, n*n - m, is the number of safe cells; a set of safe cells is never larger, and as large only when it holds them all |
| `Controls.MineLimit` | ui/widget_utils.py:143 | the mine limit is the larger of size*size - 9 and 1, and below size*size once the board has two rows |
| `Controls.Presets` | main.py:211 | Easy, Medium and Hard each have a size within the size slider's range 3 .. 40, a mine count from 1 up to but not including their limit, and the limit the size rule gives for their size; Custom alone has negative entries |
| `Controls.InitialMenu` | main.py:217-246 | the menu opens on Easy with its values on the sliders, consistent with the menu rules and the slider ranges |
| `Controls.ChangeDifficulty` | ui/widget_utils.py:126-154 | re-picking the selected level changes nothing, and picking Custom changes only the dropdown; picking another preset always leaves its size, mine count and limit on the sliders; from a consistent menu, the preset stays selected exactly when the old mine count is within the preset's limit; otherwise the size handler lowers the count to the limit and the mine-count handler switches to Custom; the menu rules are preserved |
| `Controls.ChangeMatrix` | ui/widget_utils.py:137-154 | the size is clamped to 3 .. 40; an unchanged size changes nothing; a new size resets the mine limit by the size rule and lowers the mine count to it when it is above; from a consistent menu, a preset stays selected exactly when the size is unchanged; the menu rules are preserved |
| `Controls.ChangeNHoles` | ui/widget_utils.py:147-154 | the mine count is clamped to 1 .. the current limit, and size and limit are kept; an unchanged count changes nothing; from a consistent menu, a preset stays selected exactly when the count is the preset's; the menu rules are preserved |
| `Controls.ReplayCoherent` | ui/widget_utils.py:117-154 | every menu reached from the initial one by any sequence of dropdown and slider moves keeps the menu rules and the slider ranges |
| `Controls.StartGame` | ui/widget_utils.py:25-50 | the start button draws a game exactly when the mine count is in 0 .. size*size; from a consistent menu it always does, and at least one safe cell is left to open |
| `Controls.StartAfterReplay` | ui/widget_utils.py:25-50 | whatever the user did in the menu, the start button draws a board with at least one safe cell to open |

## Left out

- Widgets and rendering: button construction, styles, colours, labels,
  grid layout (`create_expanded_button`, `create_grid`, `update_widgets`,
  `update_buttons`, `open_cells`), the start button's text and colour, and
  the "Open cells" label. Only the open and disabled flags are modelled.
- `plot_heatmap`, `display` and output capture: I/O.
- The random draw: `np.random.choice` is replaced by the permutation
  parameter `order`, whose first m entries are the black holes.
- Pandas mechanics (`explode`, `groupby`, `merge`, `isin`, index resets):
  their results are modelled as sets and maps.
- Boards with fewer than two rows are excluded by precondition. For n = 1
  both deletions hit the same row of the table and numpy raises an index
  error. The size slider never goes below 3 (main.py:226).
- The progress bar: the percentage (a float division) and the bar's
  maximum, which the notebook handlers recompute (main.py:290, 299). The
  win check itself is modelled, and it uses n*n - m (`Target`).
- Event wiring (`observe`, `on_click`) is not modelled as such. Each
  handler's effect on the other widgets, the handlers this fires, and the
  sliders' clamping are modelled in order as plain functions.
- The slider ranges are the notebook's (size 3 .. 40, main.py:226; mine
  count from 1, main.py:236). The packaged copy reads them from the same
  configuration file as its presets, which is not part of this model.
- Setting a slider's maximum below its minimum makes ipywidgets raise an
  error. No handler does so: every limit the menu sets is at least 1.
- The packaged preset table: the packaged copy reads it from a
  configuration file (`application/settings.py:18`) that is not part of
  this model. The notebook's table at main.py:211 stands in for it.
- Clicks on disabled buttons: the widget framework does not deliver them.
  `OnClickCell` accepts a click on any cell.
- `application/settings.py` and `ui/widgets.py`: configuration lookups and
  widget construction with no game logic, except the win target
  (ui/widgets.py:115-120), which `Target` models.
