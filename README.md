# Maze game core in Dafny

This project models the game logic of a small raylib maze game written in C++.
The game has five parts:

- A grid of cells, each a wall or not, and visited or not.
- A maze generator: a randomized depth-first search.
  - It starts at the room (1, 1).
  - It shuffles the four directions with a Fisher-Yates pass.
  - It jumps two cells at a time and opens the cell in between.
- The exit, forced open at (width - 2, height - 2).
- A player that moves one cell per accepted call to move. The game calls move while an arrow key is held, up to four times per frame (`src/main.cpp:316-319`).
  - Moves are limited by a cooldown.
  - A wall stops a move.
  - Any cell outside the grid counts as a wall.
- Two menu selectors. Each keeps an index that wraps around modulo the number of entries.

The modules are:

- `DirectionShuffle` (directions.dfy): the four directions, the random source and the shuffle.
- `Carving` (carving.dfy): the lattice the generator walks, as sets of coordinates.
  - Rooms have odd/odd coordinates.
  - Moves go two cells at a time, and a corridor is the cell between two rooms.
  - It also holds the growth relation `Grew`, which says what one generation call does, and the reachability lemmas.
- `Mazes` (maze.dfy): the `Cell` datatype (the struct at `src/main.cpp:5-12`) and the `Maze` class. `UnvisitedWall` is the cell every grid entry starts as (`src/main.cpp:63-66`); `Mazes.Maze.AllWallsSynced` states what such a grid means for the ghost sets. The grid is an `array2<Cell>`, indexed `grid[y, x]` as the source indexes `grid[y][x]`.
  - Two ghost sets, `visitedCells` and `openCells`, mirror the grid's flags. `Synced()` ties them to the grid.
  - Every contract about generation is stated over those two sets.
- `Players` (player.dfy): the `Player` class and the start of a level. The start of a level builds a maze and puts the player on (1, 1).
- `Menu` (menu.dfy): `choix` and `choix2`, plus the C++ remainder they use.

What is proved:

- The shuffle returns a permutation of the four directions.
- Every write during carving is inside the grid. In particular, the cell between a room and an in-grid neighbour is itself in the grid.
- Carving only ever adds visited and open cells. No cell is walled again and no visited flag is cleared.
- Every visited cell is an open room with odd/odd coordinates.
- Every cell that generation opens is one of:
  - a visited room;
  - a corridor between two visited rooms;
  - the exit.
- Once a generation call returns, every in-grid step-2 neighbour of every cell it visited is visited.
- After construction, every in-grid room of the grid has been visited. When both dimensions are odd, the exit is one of those rooms.
- Every visited room is connected to the start (1, 1) by a walk through open cells: each step goes two cells along a unit direction, and both the cell in between and the cell reached are open. After construction every in-grid room is therefore reachable from the start. With odd sides the exit is reachable too.
- A player, stepping one cell at a time onto open cells only, can walk from (1, 1) to the exit in every grid except the 2 by 2 one, whatever the parity of the sides. In the 2 by 2 grid the exit (0, 0) is open but cut off.
- `IsWall` is true exactly off the open cells, and always outside the grid.
- `IsExit` holds exactly at (width - 2, height - 2), which is open.
- A move has three cases:
  - blocked by the cooldown;
  - blocked by a wall, with the time still recorded;
  - taken.
- A move keeps a player who stands on an open cell on an open cell.
- The menu index stays in range and wraps in both directions. One step forward and one step back cancel out, and n steps forward come back to the start.

The two ghost sets are specification state only. Every state the source reaches satisfies `Synced()` and `RoomsAreOpen`, so the generation methods take them as preconditions. The source's own callers never break these invariants.

The exploration loop's body, `src/main.cpp:49-54`, is a method of its own, `CarveToward`. It is called once per shuffled direction. Its decreases measure and `GenerateMazeRecursive`'s together prove that the mutual recursion terminates: the set of unvisited cells shrinks with every new room.

## Model

| member | source | states |
|---|---|---|
| DirectionShuffle.RandomValue | src/main.cpp:39 | the random index lies in the inclusive range [lo, hi], as GetRandomValue(i, 3) promises |
| DirectionShuffle.ShuffleDirections | src/main.cpp:35-45 | the shuffled array has four entries and is a permutation (same multiset) of up, down, left, right |
| DirectionShuffle.IsUnitIsListed | src/main.cpp:35 | a step is a unit direction exactly when it is one of the four listed directions |
| DirectionShuffle.DirectionIsUnit | src/main.cpp:35-45 | every entry of a permutation of the four directions is a unit direction |
| Carving.MidpointInside | src/main.cpp:49-52 | when the room two cells away is in the grid, the wall cell opened between is too |
| Carving.ExploredGrows | src/main.cpp:51 | once a neighbour is visited it stays visited as the visited set grows |
| Carving.ExploredPrefix | src/main.cpp:48-55 | after pass i of the exploration loop, the rooms along the first i + 1 shuffled directions are visited |
| Carving.AllDirectionsExplored | src/main.cpp:48-55 | once all four shuffled directions are explored, all four step-2 neighbours of the room are visited |
| Carving.GrewNothing | src/main.cpp:51 | a pass that opens nothing is a (trivial) growth |
| Carving.CarveStep | src/main.cpp:52-53 | opening the corridor and carving on from the unvisited room only opens cells that are rooms or corridors between visited rooms |
| Carving.GrewTwice | src/main.cpp:48-55 | growth is transitive across successive passes of the loop |
| Carving.FinishRoom | src/main.cpp:29-56 | a whole call, from marking the room to the end of the loop, is a growth of the visited and open sets |
| Carving.GrownFromNothing | src/main.cpp:86-88 | after carving from an empty grid, every visited room has all in-grid step-2 neighbours visited and every open cell is a room or a corridor |
| Carving.StepPathStaysIn | src/main.cpp:48-55 | a visited set that is closed under step-2 moves contains the end of every in-grid step-2 walk from (1, 1) |
| Carving.RoomPath | src/main.cpp:49-50 | an explicit step-2 walk from (1, 1) to any room, staying within the rectangle it spans |
| Carving.AllRoomsIn | src/main.cpp:86-88 | every in-grid room with odd coordinates is reached by carving from (1, 1) |
| Carving.ClosedReachesAllRooms | src/main.cpp:67-71 | carving reaches every room; with odd width and height the exit (width - 2, height - 2) is one of them |
| Carving.ReachesSelf | src/main.cpp:31-32 | every cell reaches itself by the one-cell walk |
| Carving.ReachesStep | src/main.cpp:52-53 | a room reaches the neighbour two cells along a direction once the corridor between and the neighbour are open |
| Carving.ReachesGrows | src/main.cpp:52 | opening more cells never disconnects two cells that were connected |
| Carving.ReachesTrans | src/main.cpp:53 | reachability through open cells composes: a reaches c through b |
| Carving.LinkedNothing | src/main.cpp:51 | a pass that visits nothing new links nothing new |
| Carving.LinkedStart | src/main.cpp:31-32 | the room a call marks is linked to itself |
| Carving.LinkedTwice | src/main.cpp:48-55 | rooms linked to the start room by successive passes, as the open set grows, are all linked to it |
| Carving.LinkedThrough | src/main.cpp:52-53 | rooms linked to the neighbour that the recursive call starts from are linked to the current room through the corridor just opened |
| Carving.LinkedFromNothing | src/main.cpp:86-88 | when every room visited from an empty grid is linked to (1, 1), opening further cells keeps all of them reachable |
| Carving.LinkedRoomsReachable | src/main.cpp:67-72 | when every room is visited and every visited room is reachable, every in-grid room is reachable from (1, 1) |
| Carving.WalkableExtend | src/main.cpp:136-141 | a player's walk extends by one step onto an open neighbouring cell |
| Carving.WalkablePrefix | src/main.cpp:52-53 | every room along an open step-2 walk can be walked to cell by cell, through the corridors it crosses |
| Carving.WalkableFromReaches | src/main.cpp:52-53 | a room reached across open corridors from an open start can be walked to by the player |
| Carving.ExitWalkable | src/main.cpp:67-72 | apart from the 2 by 2 grid, the player can walk from (1, 1) to the exit (w - 2, h - 2) whatever the parity of the sides, given every room reachable |
| Carving.StuckAtStart | src/main.cpp:136-141 | a walk from (1, 1) whose only open cells are (1, 1) and (0, 0) never leaves (1, 1) |
| Carving.ExitCutOff | src/main.cpp:67-72 | in the 2 by 2 grid the exit (0, 0) cannot be walked to from (1, 1) |
| Carving.RemainingShrinks | src/main.cpp:51-53 | visiting a new room strictly shrinks the set of unvisited cells, so the recursion terminates |
| Mazes.Maze.IsInsideGrid | src/main.cpp:24-26 | true exactly for coordinates inside the width by height grid |
| Mazes.Maze.IsWall | src/main.cpp:91-94 | out-of-range coordinates are walls; in range, a cell is a wall exactly when it is not open |
| Mazes.Maze.IsExit | src/main.cpp:113-115 | in a constructed maze, true exactly at (width - 2, height - 2), which lies in the grid and is not a wall |
| Mazes.Maze.IsVisited | src/main.cpp:51 | the visited flag of an in-grid cell, as the visited set records it |
| Mazes.Maze.MarkRoom | src/main.cpp:31-32 | the cell becomes visited and open; nothing else changes |
| Mazes.Maze.OpenCell | src/main.cpp:52 | only that cell's wall is removed; visited flags are untouched |
| Mazes.Maze.GenerateMazeRecursive | src/main.cpp:29-56 | the start room ends visited with all its step-2 neighbours visited; visited/open sets only grow; new visited cells are open odd/odd rooms whose neighbours are visited; new open cells are rooms or corridors; every new visited room is reachable from the start room through open cells |
| Mazes.Maze.CarveToward | src/main.cpp:49-54 | after one pass the room two cells along the direction, if in the grid, is visited, the pass is a growth, and every room it visits is reachable from the current room through open cells |
| Mazes.Maze.GenerateMaze | src/main.cpp:86-88 | carving from (1, 1) visits it and its neighbours and only grows the visited and open sets; every room it visits is reachable from (1, 1) through open cells |
| Mazes.Maze.constructor | src/main.cpp:60-73 | the maze is Valid (exit at (w - 2, h - 2) and open, visited cells closed under step-2 moves, open cells rooms, corridors or the exit), every room is visited and reachable from (1, 1) through open cells, with odd sides the exit is a room reachable from (1, 1), and for any parity the player can walk from (1, 1) to the exit exactly when the grid is not 2 by 2 |
| Mazes.Maze.AllWallsSynced | src/main.cpp:63-66 | a grid of fresh cells (walls, unvisited) has no visited and no open cells |
| Mazes.Maze.ExitOpenedValid | src/main.cpp:70-72 | opening the exit after carving yields the Valid state |
| Mazes.Maze.ExitOnFoot | src/main.cpp:67-72 | in a Valid maze with every room reachable, the exit can be walked to from (1, 1) exactly when the grid is not 2 by 2 |
| Mazes.Maze.StartAndExitOpen | src/main.cpp:72 | in a Valid maze the start (1, 1) and the exit are not walls, and the exit is where IsExit is true |
| Players.Player.constructor | src/main.cpp:128-129 | the player starts at the given cell with cooldown 0.2 and last move time 0 |
| Players.Player.GetX | src/main.cpp:152 | returns the player's column |
| Players.Player.GetY | src/main.cpp:155 | returns the player's row |
| Players.Player.Move | src/main.cpp:132-143 | before the cooldown nothing changes; after it the time is recorded and the player steps unless the target is a wall; an open position stays open |
| Players.StartLevel | src/main.cpp:267-268 | a new level is a Valid w by h maze whose rooms are all visited and reachable, with the player on the open cell (1, 1), cooldown 0.2 and last move time 0, the exit at (w - 2, h - 2), and the exit walkable from the start exactly when the grid is not 2 by 2 |
| Menu.CppRem | src/main.cpp:162 | the C++ remainder: it lies strictly between -n and n, takes the dividend's sign, and agrees with the mathematical remainder on non-negative dividends; with the truncated quotient it recomposes the dividend |
| Menu.CppRemNegates | src/main.cpp:166 | negating the dividend negates the C++ remainder |
| Menu.Next | src/main.cpp:162 | from a valid index, the next one, wrapping from the last to the first |
| Menu.Previous | src/main.cpp:166 | from a valid index, the previous one, wrapping from the first to the last |
| Menu.NextPreviousInverse | src/main.cpp:159-169 | one step down then one step up, or the reverse, is the identity on valid indices |
| Menu.NextTimesWraps | src/main.cpp:162 | k forward presses from a valid index move k on, wrapping at most once for k up to n |
| Menu.FullCycle | src/main.cpp:162 | n forward presses return to the starting entry |
| Menu.Choix | src/main.cpp:159-169 | no key or both keys leave a valid selection unchanged; down and up alone wrap forwards and backwards; the result is always valid from a valid or non-negative selection once a key is pressed |
| Menu.Choix2 | src/main.cpp:172-182 | the same wrap-around behaviour for the right and left keys |

## Left out

- Drawing and media are not modelled, because they are rendering with no game logic:
  - `Maze::draw`, `Player::draw`, textures, colours and `cellSize`;
  - the window and audio set-up;
  - the menu and game screens.
- The destructor and the `new`/`delete` of the row arrays are not modelled. Dafny's `array2` is allocated once and garbage collected.
- The random number generator is an oracle: `RandomValue` may return any value in range, so every randomness-dependent property holds for all outcomes. Its distribution is not modelled.
- `GetTime` is the `currentTime` parameter of `Move`. `IsKeyPressed` is the boolean parameters of `Choix` and `Choix2`.
- Floats are modelled as exact reals (0.2f is 0.2), so `Move` does not model floating-point rounding of the cooldown comparison.
- `int` is unbounded, so the model does not capture 32-bit overflow. Overflow can only arise for grids near 2^31 cells wide or for menu indices near 2^31.
- The main loop and menu state machine (`src/main.cpp:185-361`) are left out: they are screen control flow. Only its level start (`Players.StartLevel`) and the menu functions it calls are modelled.
- Mazes.Maze.GenerateMazeRecursive: its contract does not state that the carved corridors have no cycles, so it does not state that the result is a spanning tree (a perfect maze). Stating that would need a parent relation between rooms, which the source never records. It does state that every room visited is reachable through open cells and that every open cell is a room or a corridor between visited rooms.
- Mazes.Maze.GenerateMaze: it is weaker in the same way as GenerateMazeRecursive, since it is one call of it. It states connectivity but does not state that there are no cycles.
- Mazes.Maze.constructor: it requires both sides to be at least 2. With a smaller side the source writes `grid[1][1]` out of range when carving starts (`src/main.cpp:31-32`, called from `src/main.cpp:87`), which is undefined behaviour, so that case is not modelled.
- The source stores the directions array as `int[4][2]`. Here it is a local sequence of pairs, and the shuffle swaps whole pairs.
