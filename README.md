# Zip puzzle search engine, modelled in Dafny

A Zip puzzle is a square board of cells. Some cells carry positive labels; the
others hold 0. Walls may separate neighbouring cells. A solution is a path
that visits every cell exactly once and moves only between 4-neighbours that
no wall separates. It starts on the smallest label and ends on the largest,
and it meets the labels on the way in increasing order, each in turn.

This project models the search engines of the repository and the editor that
produces puzzles:

- `solver_process` in grid_solver.py (module `SolverProcess`). It is the
  production engine: it builds `positions` and the neighbour map, runs an
  explicit-stack depth-first search with a distance prune and a connectivity
  prune, sends throttled progress messages, polls a stop event and ends with
  one terminal message.
- `solve` in solvers/zip_solver_v3.py and solvers/zip_solver_v2.py (module
  `Standalone`). These are the same stack search with start label 1 and the
  largest board value as the end. Their target lookup is unguarded, and v2
  has no connectivity prune.
- The recursive `dfs` of solvers/zip_solver_v1.py (module `BruteForce`). It
  keeps `path` and `visited` as globals, modelled as the fields of a class.
- `GridEditor.toggle_wall` and `GridEditor.onkey` of solvers/grid_maker.py
  (module `GridMaker`). The editor is a class whose fields the handlers update.

The shared parts live in modules of their own:

- `Grid`: cells, boards, the labels met along a path, `positions` and the
  largest value.
- `Adjacency`: the neighbour map and the loops that filter it by the walls.
- `Connectivity`: the `is_connected` flood fill.
- `Search`: the stack frame, the processing of one popped frame, and the
  soundness, completeness and termination of the stack search.

The main results are these:

- Every engine reports only true solutions, from the cell of the first label
  to the cell of the last.
- Every engine reports "no solution" only when none exists. Neither prune
  ever discards the frame that leads to a solution.
- The stack loops terminate. The measure is the sum of
  `5 ^ (N * N - len(visited))` over the stack.
- `is_connected` returns True exactly when every required cell can be reached
  from the current cell through required cells.
- The neighbour map built once (production) and the one built once per wall
  (v2 and v3) are the same map.
- The production engine honours its stop event: it tests the loop condition
  no more often than the event allows, and it reports "stopped" exactly when
  the event was set at the last test.
- The editor's wall toggle is an involution. After a digit or backspace key
  the selected cell holds `int(buffer)`, or 0 when the buffer is empty.

The engines require the labels met to be consecutive integers
`start, start + 1, ..., end`. The counter `next_search` goes up by exactly one
per label, so a board whose labels skip a value has no solution. `IsSolution`
states this.

## Model

| member | source | states |
|---|---|---|
| Grid.Positions | grid_solver.py:19-21 | every key of `positions` is a non-zero label, mapped to a board cell that carries it |
| Grid.PositionsOf | solvers/zip_solver_v3.py:15 | the dict comprehension maps each key to one of the scanned cells, and that cell carries the key |
| Grid.PositionsKeys | solvers/zip_solver_v3.py:15 | the keys of the comprehension are exactly the non-zero labels of the scanned cells |
| Grid.PositionsSpec | grid_solver.py:19-21 | `positions` maps labels to cells carrying them; its keys are exactly the labels on the board |
| Grid.PositionsUnique | grid_solver.py:68 | when no label repeats, `positions[l]` is the one cell labelled `l` |
| Grid.GridMax | solvers/zip_solver_v3.py:10 | `max([max(row) for row in grid])` is a value of some cell and no cell exceeds it |
| Grid.SeqMin | grid_solver.py:26 | `min` returns an element no larger than any other |
| Grid.SeqMax | grid_solver.py:26 | `max` returns an element no smaller than any other |
| Grid.CellsCard | grid_solver.py:92 | the board has `N * N` cells |
| Grid.FullPathCovers | grid_solver.py:92 | a duplicate-free path of `N * N` board cells passes through every cell |
| Grid.CoveringPathLength | grid_solver.py:92 | a duplicate-free path through every cell has length `N * N` |
| Grid.LabelsAppend | grid_solver.py:88-103 | the labels met along a concatenation are those of the parts, in order |
| Grid.LabelsMembers | grid_solver.py:88-103 | a value is among the labels met exactly when some cell of the path carries it |
| Adjacency.NeighborMapSpec | grid_solver.py:28-43 | each board cell has an entry listing exactly its in-bounds, unwalled 4-neighbours, at most four, in the order down, up, right, left |
| Adjacency.NeighborMapOk | grid_solver.py:28-43 | the finished map has an entry for exactly the board cells, each listing exactly its neighbours |
| Adjacency.KeepInBoundsSpec | grid_solver.py:28-36 | the bounds filter keeps exactly the in-bounds candidates, in their order |
| Adjacency.KeepUnwalledSpec | grid_solver.py:37-43 | the wall filter drops exactly the cells walled off in either orientation, keeping order |
| Adjacency.KeepUnwalledIdempotent | solvers/zip_solver_v3.py:27-33 | filtering twice by the same walls equals filtering once |
| Adjacency.NoWallsKeepsBounds | solvers/zip_solver_v3.py:27-33 | with no walls the per-wall loop never runs, and the map is the bounds-only map |
| Adjacency.BuildNeighbors | grid_solver.py:37-43 | the single filtering pass over the keys yields the specified neighbour map |
| Adjacency.BuildNeighborsPerWall | solvers/zip_solver_v3.py:17-33 | the filter repeated once per wall yields the same neighbour map |
| Adjacency.FilterPass | grid_solver.py:38-43 | a pass over all keys replaces every entry by its filtered list, whatever the key order |
| Connectivity.Required | grid_solver.py:48-54 | the required cells are board cells, not visited, whose label is 0 or at least `new_next` |
| Connectivity.IsConnected | grid_solver.py:45-66 | the result is True exactly when every required cell is reachable from `(r, c)` through required cells; True when nothing is required |
| Connectivity.Flood | grid_solver.py:58-65 | the flood fill's `seen` holds the start and required cells only, is closed under required neighbours, and each cell in it is reachable |
| Connectivity.VisitNeighbors | grid_solver.py:62-65 | one dequeued cell adds its unseen required neighbours to `seen` and to the deque |
| Connectivity.WalkStaysInside | grid_solver.py:66 | a walk through required cells never leaves a closed `seen`, so a required cell missing from it is unreachable |
| Search.Children | grid_solver.py:119-120 | one pushed frame per neighbour, in neighbour order, all sharing the new counter, path and visited set |
| Search.Examine | grid_solver.py:88-120 | processing one fresh frame gives the outcome the label rule and the prunes specify, for the production, v3 and v2 variants |
| Search.ExpandShape | grid_solver.py:88-103 | a frame is expanded only when its label is due (and not the last) or 0 |
| Search.FrameCount | grid_solver.py:92 | a frame at a fresh cell has as many visited cells as path cells, and at most `N * N - 1` |
| Search.ExtendedPath | grid_solver.py:105-107 | the new path is a trail of distinct board cells from the start, and its labels are `start, ..., new_next - 1` |
| Search.ProgressPath | grid_solver.py:82 | the path in a progress message is a trail of distinct board cells from `positions[start]` |
| Search.LabelsExtend | grid_solver.py:88-101 | appending the due label or a 0 to a path labelled `start, ..., next - 1` gives labels up to the new counter |
| Search.ChildrenOk | grid_solver.py:119-120 | every pushed frame keeps the frame invariant |
| Search.SolutionLabelsDistinct | grid_solver.py:68 | a board that has a solution carries each label on one cell only |
| Search.CompletedPath | grid_solver.py:92-97 | the path completed at the last label with all other cells visited is a solution from `positions[start]` to `positions[end]` |
| Search.FinishSound | grid_solver.py:92-97 | a reported solution solves the puzzle and runs from `positions[start]` to `positions[end]` |
| Search.SolutionHasLabels | solvers/zip_solver_v3.py:100 | every label from start to end is a key of `positions` when a solution exists |
| Search.SolutionLength | grid_solver.py:92 | a solution is `N * N` cells long |
| Search.MissingSound | solvers/zip_solver_v3.py:100 | a `positions[new_next]` lookup that fails names a label between start and end, and then no solution exists |
| Search.TrailDistance | grid_solver.py:109-114 | a trail of `k` moves covers Manhattan distance at most `k` |
| Search.SuffixReachable | grid_solver.py:116-117 | along a solution, every cell the connectivity prune requires is reachable from the current cell |
| Search.TrailReaches | grid_solver.py:116-117 | cells that make up the rest of a trail are reachable through themselves |
| Search.SuffixRequired | grid_solver.py:48-54 | along a solution, the required cells are exactly the cells after the current one |
| Search.LabelsAhead | grid_solver.py:88-103 | on the way along a solution the current label is due or 0, and the labels ahead are the remaining ones |
| Search.LabelsOnce | grid_solver.py:88-103 | along a path with increasing labels no label occurs twice |
| Search.WitnessProgresses | grid_solver.py:73-120 | the frame leading to a solution either completes it or pushes a child leading to it, in every variant |
| Search.WitnessCompletes | grid_solver.py:92-97 | at the last cell of a solution the frame finishes with exactly that solution |
| Search.LastIsEnd | grid_solver.py:90-92 | when the labels before the last cell of a solution run up to `next - 1`, the last cell carries `next`, which is `end` |
| Search.WitnessExpands | grid_solver.py:105-120 | before the last cell of a solution the frame is expanded and one child steps onto the next cell of the solution |
| Search.NoPruneFires | grid_solver.py:109-117 | on the way along a solution neither the label test, the distance prune nor the connectivity prune discards the frame |
| Search.TargetWithin | grid_solver.py:109-114 | the next target exists and lies no farther than the cells left to visit |
| Search.TargetAhead | grid_solver.py:109-114 | the next label due sits on a later cell of the solution, within the remaining moves |
| Search.RestReachable | grid_solver.py:116-117 | the connectivity prune never fires on the way along a solution |
| Search.StepExpands | grid_solver.py:119-120 | a frame none of whose prunes fires pushes its children |
| Search.NextChild | grid_solver.py:119-120 | the next cell of a solution is among the current cell's neighbours |
| Search.ExpandLighter | grid_solver.py:119-120 | the pushed children weigh less than the popped frame, so the loop terminates |
| Search.WeightAppend | grid_solver.py:73-74 | the weight of a stack is the sum of the weights of its parts |
| Search.InitialOk | grid_solver.py:68-69 | the first frame keeps the frame invariant and leads to every solution |
| Search.PopKeeps | grid_solver.py:73-120 | replacing the popped frame by what it pushes keeps the invariant, keeps every solution covered and lowers the weight |
| Search.CoversReplaceTop | grid_solver.py:73-120 | every solution keeps a frame on the stack leading to it |
| Search.PopCases | solvers/zip_solver_v3.py:72-111 | a pop either finishes with a solution, fails a lookup on a missing label, or leaves a lighter stack that still covers every solution |
| Search.Pop | solvers/zip_solver_v3.py:72-111 | one iteration of the stack loop, including the skip of a visited cell, keeps the loop invariant or stops with a sound result |
| Search.StackSearch | solvers/zip_solver_v3.py:66-113 | `solve` finds a solution, or fails a lookup on a missing label and then no solution exists, or returns False only when no solution exists |
| Standalone.RunV3 | solvers/zip_solver_v3.py:5-113 | the script prints a solution from the cell labelled 1 to the cell of the largest value exactly when one exists; a missing label 1 raises KeyError; an empty board fails |
| Standalone.RunV2 | solvers/zip_solver_v2.py:5-79 | the same as v3, with the distance prune only |
| Standalone.SolvableHasStart | solvers/zip_solver_v3.py:67 | a solvable board has a cell labelled 1, so `positions[start]` succeeds |
| SolverProcess.TicksSpec | grid_solver.py:79-86 | the progress counts are increasing and are exactly the counts at multiples of the interval whose put finds room |
| SolverProcess.TickStep | grid_solver.py:79-86 | the throttle test fires exactly at the ticks, and `last_update` moves to the tick |
| SolverProcess.FirstLabel | grid_solver.py:26 | `min(positions)` is a label on the board and no label is smaller |
| SolverProcess.LastLabel | grid_solver.py:26 | `max(positions)` is a label on the board and no label is larger |
| SolverProcess.SolverProcessRun | grid_solver.py:9-125 | one terminal message, last; an empty board gives done at 0; progress counts are the accepted ticks and carry trails from the start; a found solution solves the puzzle; done without stopped means no solution; the loop condition is tested no more often than the stop event allows, `checked` is at most the number of tests, and stopped is reported exactly when the event was set at the last test |
| SolverProcess.StopBeforeStart | grid_solver.py:73-123 | a stop event set before the first test puts only `{"done": True, "checked": 0, "stopped": True}` |
| SolverProcess.EmptyPositions | grid_solver.py:19-22 | `positions` is empty exactly when the board has no label |
| SolverProcess.NoLabels | grid_solver.py:22-24 | a board without labels reports done with 0 checked and nothing else |
| SolverProcess.Setup | grid_solver.py:26-43 | `start`, `end`, `positions` and the neighbour map form a well-formed search context |
| SolverProcess.StackLoop | grid_solver.py:68-125 | the loop and its terminal message keep every promise of `solver_process` about the search context, and honour the stop event over the tests of the loop condition it returns |
| SolverProcess.Count | grid_solver.py:78-86 | `checked` goes up by one and a progress message is put exactly at a tick with room in the queue |
| SolverProcess.Terminate | grid_solver.py:122-125 | the terminal message after the progress messages gives a well-framed message sequence |
| BruteForce.Solver.constructor | solvers/zip_solver_v1.py:5-12 | `N`, `end` the largest value, empty `path` and `visited` |
| BruteForce.Solver.Dfs | solvers/zip_solver_v1.py:18-57 | off-board or visited gives False; False leaves the globals as they were; True leaves a solution in `path`; True whenever a solution goes through the path and the cell |
| BruteForce.Solver.TryMoves | solvers/zip_solver_v1.py:43-57 | after the push, the four calls succeed whenever a solution continues the path, and otherwise the pop restores the globals |
| BruteForce.Solver.Move | solvers/zip_solver_v1.py:46-53 | one recursive call succeeds whenever a solution goes through that move |
| BruteForce.Solver.StartLoop | solvers/zip_solver_v1.py:60-63 | after the scan `path` is empty or a solution, and it is a solution exactly when one exists |
| BruteForce.Script | solvers/zip_solver_v1.py:5-63 | an empty board fails; otherwise the printed path is a solution exactly when one exists |
| BruteForce.NoStartLeft | solvers/zip_solver_v1.py:60-63 | when no solution starts before the end of the scan, none exists |
| BruteForce.ScanPast | solvers/zip_solver_v1.py:61-63 | one step of the scan keeps "nothing found yet, none missed" or "solution found and kept" |
| BruteForce.OnlyStart | solvers/zip_solver_v1.py:62 | a solvable board has exactly one cell labelled 1 |
| BruteForce.OffBoard | solvers/zip_solver_v1.py:19-20 | no solution goes through a cell off the board |
| BruteForce.AlongSolutions | solvers/zip_solver_v1.py:25-41 | a call on the way along a solution passes the label tests |
| BruteForce.AlongToEnd | solvers/zip_solver_v1.py:27-28 | at the last cell of a solution the label is the last one and all other cells are visited |
| BruteForce.AlongOnward | solvers/zip_solver_v1.py:25-41 | before the last cell the label is due or 0, and the solution continues |
| BruteForce.NextMove | solvers/zip_solver_v1.py:46-53 | a solution continuing the path takes one of the four moves down, right, up, left |
| BruteForce.FinalCell | solvers/zip_solver_v1.py:27-32 | the last cell, reached with every other cell visited, completes a solution |
| BruteForce.Pushed | solvers/zip_solver_v1.py:43-44 | after the push the globals keep their invariant with the new counter |
| GridMaker.Normalise | solvers/grid_maker.py:92-93 | the pair is the two cells, in increasing tuple order |
| GridMaker.AfterToggle | solvers/grid_maker.py:89-97 | the same cell twice changes nothing; otherwise the normalised wall is added when absent and removed when present, and no other wall changes |
| GridMaker.ToggleTwice | solvers/grid_maker.py:89-97 | toggling the same wall twice restores the walls |
| GridMaker.ToggleSymmetric | solvers/grid_maker.py:92-93 | the order of the two cells does not matter |
| GridMaker.ToggleNormalised | solvers/grid_maker.py:92-97 | every stored wall stays in increasing order |
| GridMaker.Value | solvers/grid_maker.py:62 | `int(buffer)` of a digit string |
| GridMaker.ValueAppend | solvers/grid_maker.py:61-62 | typing a digit multiplies the value by ten and adds the digit |
| GridMaker.ValueDropLast | solvers/grid_maker.py:65-66 | deleting the last digit divides the value by ten |
| GridMaker.SetCell | solvers/grid_maker.py:62 | `grid[r][c] = v` changes that cell and no other |
| GridMaker.KeyKeepsOk | solvers/grid_maker.py:57-71 | every key keeps a digit-only buffer, a selection on the board and normalised walls; it leaves the walls and every unselected cell alone |
| GridMaker.NoSelectionNoChange | solvers/grid_maker.py:58 | without a selected cell a key changes nothing |
| GridMaker.DigitShiftsValue | solvers/grid_maker.py:60-62 | a digit puts `10 * int(buffer) + digit` into the selected cell |
| GridMaker.DigitThenBackspace | solvers/grid_maker.py:60-67 | backspace after a digit restores the buffer and the value it denotes |
| GridMaker.BackspaceDividesByTen | solvers/grid_maker.py:64-66 | backspace leaves `int(buffer) // 10` in the selected cell, and 0 when the buffer empties |
| GridMaker.EnterFinishes | solvers/grid_maker.py:68-71 | enter clears the selection and the buffer and leaves the board as it is |
| GridMaker.GridEditor.constructor | solvers/grid_maker.py:5-12 | an N x N board of zeros, no walls, nothing selected, an empty buffer |
| GridMaker.GridEditor.Click | solvers/grid_maker.py:52-54 | a click on the board selects that cell and empties the buffer; a click elsewhere changes nothing |
| GridMaker.GridEditor.ToggleWall | solvers/grid_maker.py:89-97 | the walls become their toggle, nothing else changes, and the editor invariant holds |
| GridMaker.GridEditor.OnKey | solvers/grid_maker.py:57-71 | the editor state becomes the key's specified successor, and the editor invariant holds |

## Left out

- Drawing, the matplotlib GUI, `print` and the `draw_path` calls are left out. So are the random temporary drawings, which have no effect on the search.
- Processes and the queue: `solver_process` runs in a separate process. Its queue is modelled as the returned message sequence.
- The stop event: it is modelled as "set from the k-th loop test on", a monotone flag polled once per iteration.
- A full queue: modelled as the set of `checked` values at which the non-blocking progress put fails.
- SolverProcess.SolverProcessRun: requires every label to be non-negative, as the editor produces them. A negative `min(positions)` is not modelled.
- BruteForce.Script: the recursion depth of `dfs` grows by one per path cell. Python's default recursion limit of 1000 therefore raises `RecursionError` on boards of about 1000 cells or more (N >= 32), before any solution is printed. The model has no recursion limit.
- BruteForce.Solver.Dfs: v1 ignores walls, as the script does. Its solutions are stated for the wall-free puzzle.
- GridMaker.IsDigits: `str.isdigit` is modelled for ASCII digits only. Other Unicode digits are not modelled.
- GridMaker.GridEditor.Click: only the plain-click branch of `onclick` is modelled. The shift-click wall branch maps mouse coordinates to cells, then calls `toggle_wall`, which is modelled.
- `update_cell`, `redraw_walls` and the `__main__` blocks only draw or wire up the GUI.
- The `toggle_wall` of grid_solver.py's GUI is not part of this model. It is the editor's toggle without the same-cell guard.
- utils, test.py and the board files are not part of this model.
- The board: a list of rows that the editor changes in place is modelled as a sequence the methods reassign. Aliasing between rows is not captured.
- The key order of the filtering pass over the neighbour map: it is modelled as an arbitrary order. The entries are independent, so the result is the same.
- Search termination: it is proved with a measure, not by counting the pops.
