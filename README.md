# maze_runner: the flood-fill explorer, verified in Dafny

`maze_runner.cpp` loads a character maze (`e` entrance, `s` exit, `x` open
path, anything else a wall), seeds a FIFO queue `open_positions` with the
entrance, and lets workers run `explore_maze`. Each pass of that loop stops if
`exit_found` is set or the queue is empty. Otherwise it pops the front
position. If that cell holds `s` it sets `exit_found` and stops. If not, it
overwrites the cell with `.` and pushes every neighbour (up, down, left, right)
that `is_valid_position` accepts: in bounds and holding `x` or `s`.

This project models that traversal with one worker, each loop pass being one
atomic step:

- `grid.dfy` (module `Grid`): positions and the four-neighbourhood. It also
  gives a value view of the loaded maze (`seq<seq<char>>`). That view defines
  walks and exit paths (orthogonal steps through `x` cells to an `s` cell) and
  the row-major "first entrance".
- `loader.dfy` (module `Loader`): the entrance scan at the end of `load_maze`,
  as nested loops over an `array2<char>`.
- `search.dfy` (module `Search`): the exploration invariants, stated on
  values. `Closed` says nothing open is lost. `VisitedEligible` says only
  `x` cells and the entrance are overwritten. It also holds the lemmas that
  turn these into the completeness half of the reachability result.
- `explorer.dfy` (module `Explorer`): class `MazeExplorer`. It holds the maze
  (`array2<char>`, updated in place), the queue `openPositions: seq<Pos>` and
  the flag `exitFound`. Ghost state records the loaded maze, the entrance and
  the set of visited cells. `Step` is one loop pass and `Explore` is the loop.
- `runner.dfy` (module `Runner`): `main` without its threads and output. It
  finds the entrance, stops if there is none, seeds the queue, explores and
  reports the flag.
- `mazes.dfy` (module `Mazes`): two 3×3 mazes, one where the exit is
  reachable and one where a wall column cuts it off.

The main result is `Explore`'s contract. From any valid state, and so from a
freshly seeded explorer, the loop ends with `exitFound` true exactly when an
`s` cell is joined to the entrance by orthogonal steps through `x` cells.
Termination is proved with a lexicographic measure: (cells not yet visited,
queue length + 4 × queued entries already visited). Popping an unvisited cell
shrinks the first part. Popping an already visited cell, which the program
allows, leaves the grid alone. It pushes at most four unvisited cells, so the
second part drops.

Two behaviours of the source are kept on purpose:
- A position can be queued several times before it is visited. The push only
  tests the cell's current character, and re-popping a `.` cell rewrites `.`
  and scans its neighbours again.
- The entrance cell `e` is itself overwritten with `.` when it is popped.

`maze_runner.cpp` has no check when a cell is taken off the queue, so a
visited cell is processed again. The exit cell is never written. There is no
recursive explorer.

## Model

| member | source | states |
|---|---|---|
| `Grid.Neighbours` | maze_runner.cpp:105-110 | exactly the four positions one orthogonal step from the popped cell; the body lists them in the order up, down, left, right |
| `Explorer.MazeExplorer.IsValidPosition` | maze_runner.cpp:71-75 | true exactly when the position is a cell of the current grid holding `x` or `s`; `ValidPositionIsUnvisitedOpen` ties this to the loaded maze and the visited cells |
| `Explorer.MazeExplorer.ValidPositionIsUnvisitedOpen` | maze_runner.cpp:71-75 | while the grid matches the loaded maze except for visited cells, a position is valid exactly when it was an `x`/`s` cell of the loaded maze and has not been visited |
| `Explorer.MazeExplorer.Eligible` | maze_runner.cpp:114-118 | the neighbours kept are no more than the neighbours tried, which caps the pushes of one pass at four in the termination measure |
| `Explorer.MazeExplorer.EligibleMembers` | maze_runner.cpp:114-118 | a neighbour is kept exactly when it passes `is_valid_position` |
| `Explorer.MazeExplorer.QueueValidNeighbours` | maze_runner.cpp:105-118 | the queue becomes the old queue followed by the valid neighbours, in the order up, down, left, right |
| `Explorer.MazeExplorer.MarkVisited` | maze_runner.cpp:100 | the popped cell becomes `.`, every other cell keeps its character, and the grid still equals the loaded maze with exactly the visited cells turned to `.` |
| `Explorer.MazeExplorer.constructor` | maze_runner.cpp:136 | seeding the queue with an `e` cell gives a valid state: queue `[entrance]`, flag false, nothing visited |
| `Explorer.MazeExplorer.Step` | maze_runner.cpp:79-119 | one loop pass keeps the invariant. The invariant covers: every queued position in bounds and reached from the entrance, the grid equal to the loaded maze except visited cells, nothing open lost, and a found flag backed by a reachable exit. With the flag set or the queue empty, the pass stops and changes nothing. Popping an `s` cell sets the flag, drops the front and leaves the grid unchanged. Popping anything else writes `.` into that cell only and appends the valid neighbours to the rest of the queue. The flag never goes back to false, a cell only changes to `.` and only from `x`, `e` or `.`, and a pass that does not stop lowers the termination measure |
| `Explorer.MazeExplorer.VisitKeepsValid` | maze_runner.cpp:88-118 | popping a non-exit cell, marking it and queuing its valid neighbours re-establishes the invariant |
| `Explorer.MazeExplorer.VisitProgresses` | maze_runner.cpp:88-118 | that pass either visits a new cell or, on a re-pop, lowers queue length + 4 × visited entries |
| `Explorer.MazeExplorer.Explore` | maze_runner.cpp:78-121 | the loop terminates with the flag set or the queue empty; the flag is set exactly when an exit is reachable from the entrance through `x` cells; cells other than the entrance and `x` cells (walls and the exit) keep their loaded character |
| `Loader.FindEntrance` | maze_runner.cpp:48-56 | returns `(-1,-1)` exactly when no cell holds `e`; otherwise an in-bounds `e` cell with no `e` before it in row-major order |
| `Grid.FirstEntranceUnique` | maze_runner.cpp:48-56 | the first entrance in row-major order is unique |
| `Grid.ReachedExit` | maze_runner.cpp:93-96 | popping an `s` cell that was reached from the entrance means an exit is reachable |
| `Grid.ReachesNeighbour` | maze_runner.cpp:114-116 | a valid neighbour of a reached entrance or `x` cell is reached too |
| `Grid.ReachedIsEntranceOrOpen` | maze_runner.cpp:115-116 | every reached cell is the entrance or an `x`/`s` cell |
| `Search.PopKeepsClosed` | maze_runner.cpp:88-118 | popping the front, marking it visited and pushing its open unvisited neighbours keeps every open neighbour of a visited cell visited or queued |
| `Search.WalkStaysVisited` | maze_runner.cpp:84-85 | when the loop stops on an empty queue, every cell of every walk from the entrance has been visited |
| `Search.NoExitWhenExhausted` | maze_runner.cpp:84-85 | when the loop stops on an empty queue without the flag, no exit is reachable |
| `Runner.Run` | maze_runner.cpp:129-156 | reports a missing entrance exactly when no cell holds `e`; otherwise explores from the first entrance in row-major order and reports "found" exactly when an exit is reachable from it; since that entrance is unique (`FirstEntranceUnique`), this holds for every cell meeting that description |
| `Mazes.OpenMazeReachesExit` | maze_runner.cpp:78-121 | in the open maze `xex/xxx/xxs` the exit is reachable from `(0,1)` |
| `Mazes.WalledMazeHasNoExit` | maze_runner.cpp:78-121 | in `e#s/x#x/x#x` no exit is reachable from `(0,0)` |

## Left out

- Threads and the mutex (maze_runner.cpp:25, 83, 94, 113, 139-149): the five workers are replaced by one, and each loop pass is atomic. The unlocked read and write of the popped cell (lines 93 and 100) is a data race in the source; the model does not capture interleavings.
- `display_maze` (lines 60-68) and the 20 ms sleep (line 102): terminal output and pacing only.
- File reading in `load_maze` (lines 29-45): the model starts from an already filled `array2<char>`. Parsing, whitespace skipping and a short or unreadable file are not modelled.
- `main`'s argument-count check and its messages (lines 124-127, 131, 152-156): `Runner.Run` returns an `Outcome` value in place of the exit status and the printed line.
- `int` overflow: positions are unbounded integers. Neighbour coordinates are at most one step outside a grid whose size is an `int`, so no wrap-around arises for mazes the loader can build.
