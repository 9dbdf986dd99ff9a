// The maze: a height-by-width grid of cells carved by a randomized depth-first
// search started at (1, 1), with the exit forced open at (width - 2, height - 2).

module Mazes {
  import opened DirectionShuffle
  import opened Carving

  /** One grid cell. A fresh cell is a wall that generation has not visited yet. */
  datatype Cell = Cell(isWall: bool, visited: bool)

  const UnvisitedWall := Cell(true, false)

  class Maze {
    const width: int
    const height: int
    /** grid[y, x] is the cell in column x of row y, indexed as the source indexes grid[y][x]. */
    const grid: array2<Cell>
    var exitX: int
    var exitY: int

    /** The coordinates whose cells are visited, and those whose cells are not walls. */
    ghost var visitedCells: set<Coord>
    ghost var openCells: set<Coord>

    /** The buffer has the maze's dimensions and the two ghost sets describe its flags. */
    ghost predicate Synced()
      reads this, grid
    {
      grid.Length0 == height && grid.Length1 == width &&
      (forall c :: c in visitedCells ==> Inside(c, width, height)) &&
      (forall c :: c in openCells ==> Inside(c, width, height)) &&
      forall cx, cy :: 0 <= cx < width && 0 <= cy < height ==>
        (grid[cy, cx].visited <==> (cx, cy) in visitedCells) &&
        (!grid[cy, cx].isWall <==> (cx, cy) in openCells)
    }

    /**
     * The state after construction: the exit sits at (width - 2, height - 2)
     * and is open; every visited cell is an open room whose in-grid step-2
     * neighbours are visited and which can be reached from (1, 1) through
     * open cells; every other open cell is a corridor between two visited
     * rooms or the exit.
     */
    ghost predicate Valid()
      reads this, grid
    {
      Synced() && width >= 2 && height >= 2 &&
      exitX == width - 2 && exitY == height - 2 && (exitX, exitY) in openCells &&
      (1, 1) in visitedCells &&
      RoomsAreOpen(visitedCells, openCells) &&
      Closed(visitedCells, width, height) &&
      AllLinked(visitedCells, openCells) &&
      forall c :: c in openCells ==> c in visitedCells || IsCorridor(visitedCells, c) || c == (exitX, exitY)
    }

    /** (x, y) is one of the width * height cells of the grid. */
    predicate IsInsideGrid(x: int, y: int): (r: bool)
      reads this
      ensures r <==> (x, y) in Cells(width, height)
    {
      0 <= x < width && 0 <= y < height
    }

    /** Out-of-range coordinates are walls; inside the grid a cell is a wall unless it was carved. */
    function IsWall(x: int, y: int): (r: bool)
      reads this, grid
      requires Synced()
      ensures !IsInsideGrid(x, y) ==> r
      ensures r <==> (x, y) !in openCells
    {
      if !IsInsideGrid(x, y) then true else grid[y, x].isWall
    }

    /** Once constructed, the exit is the open cell (width - 2, height - 2). */
    function IsExit(x: int, y: int): (r: bool)
      reads this, grid
      ensures Valid() ==> (r <==> x == width - 2 && y == height - 2)
      ensures Valid() && r ==> IsInsideGrid(x, y) && !IsWall(x, y)
    {
      x == exitX && y == exitY
    }

    /** The visited flag of the in-grid cell (x, y), as the ghost set records it. */
    function IsVisited(x: int, y: int): (r: bool)
      reads this, grid
      requires Synced() && IsInsideGrid(x, y)
      ensures r <==> (x, y) in visitedCells
    {
      grid[y, x].visited
    }

    /** Marks the in-grid cell (x, y) visited and open, keeping the ghost sets in step. */
    method MarkRoom(x: int, y: int)
      requires Synced() && IsInsideGrid(x, y)
      modifies this`visitedCells, this`openCells, grid
      ensures Synced()
      ensures visitedCells == old(visitedCells) + {(x, y)} && openCells == old(openCells) + {(x, y)}
    {
      grid[y, x] := grid[y, x].(visited := true);
      grid[y, x] := grid[y, x].(isWall := false);
      visitedCells := visitedCells + {(x, y)};
      openCells := openCells + {(x, y)};
    }

    /** Knocks down the wall at the in-grid cell (x, y), leaving its visited flag alone. */
    method OpenCell(x: int, y: int)
      requires Synced() && IsInsideGrid(x, y)
      modifies this`openCells, grid
      ensures Synced()
      ensures openCells == old(openCells) + {(x, y)}
    {
      grid[y, x] := grid[y, x].(isWall := false);
      openCells := openCells + {(x, y)};
    }

    /**
     * A maze of w columns and h rows: every cell starts as an unvisited
     * wall, carving runs from (1, 1), and the exit (w - 2, h - 2) is then
     * opened whatever carving did to it. The result is Valid, every room
     * (both coordinates odd) of the grid has been visited and can be reached
     * from (1, 1) through open cells, and when both dimensions are odd the
     * exit is itself such a room. Whatever the parity, a player can walk
     * from (1, 1) to the exit exactly when the grid is not 2 by 2.
     */
    constructor (w: int, h: int)
      requires w >= 2 && h >= 2
      ensures width == w && height == h && fresh(grid)
      ensures Valid()
      ensures AllRoomsVisited(visitedCells, width, height)
      ensures RoomsReachable(openCells, width, height)
      ensures w % 2 == 1 && h % 2 == 1 ==> (exitX, exitY) in visitedCells && Reaches(openCells, (1, 1), (exitX, exitY))
      ensures Walkable(openCells, (1, 1), (exitX, exitY)) <==> !(w == 2 && h == 2)
    {
      width := w;
      height := h;
      grid := new Cell[h, w]((_, _) => UnvisitedWall);
      visitedCells := {};
      openCells := {};
      new;
      AllWallsSynced();
      GenerateMaze();
      GrownFromNothing(visitedCells, openCells, width, height);
      ghost var carvedVisited, carvedOpen := visitedCells, openCells;
      exitX := width - 2;
      exitY := height - 2;
      OpenCell(exitX, exitY);
      LinkedFromNothing(carvedVisited, carvedOpen, openCells);
      ExitOpenedValid(carvedVisited, carvedOpen);
      ClosedReachesAllRooms(carvedVisited, width, height);
      LinkedRoomsReachable(visitedCells, openCells, width, height);
      ExitOnFoot();
    }

    /** A grid of unvisited walls matches empty visited and open sets. */
    lemma AllWallsSynced()
      requires grid.Length0 == height && grid.Length1 == width
      requires visitedCells == {} && openCells == {}
      requires forall cy, cx :: 0 <= cy < height && 0 <= cx < width ==> grid[cy, cx] == UnvisitedWall
      ensures Synced()
    {
    }

    /**
     * Carving from nothing and then opening the exit (width - 2, height - 2)
     * gives a Valid maze.
     */
    lemma ExitOpenedValid(v: set<Coord>, o: set<Coord>)
      requires Synced() && width >= 2 && height >= 2
      requires exitX == width - 2 && exitY == height - 2
      requires (1, 1) in v && RoomsAreOpen(v, o) && Closed(v, width, height)
      requires forall c :: c in o ==> c in v || IsCorridor(v, c)
      requires visitedCells == v && openCells == o + {(exitX, exitY)} && AllLinked(v, openCells)
      ensures Valid()
    {
    }

    /** Starts carving at the room (1, 1). */
    method GenerateMaze()
      requires Synced() && width >= 2 && height >= 2
      requires RoomsAreOpen(visitedCells, openCells)
      modifies this`visitedCells, this`openCells, grid
      ensures Synced() && RoomsAreOpen(visitedCells, openCells)
      ensures (1, 1) in visitedCells && NeighboursIn(visitedCells, (1, 1), width, height)
      ensures Grew(old(visitedCells), old(openCells), visitedCells, openCells, width, height)
      ensures LinkedTo((1, 1), old(visitedCells), visitedCells, openCells)
    {
      GenerateMazeRecursive(1, 1);
    }

    /**
     * In a Valid maze whose rooms are all reachable, a player can walk from
     * (1, 1) to the exit, one open cell at a time, unless the grid is 2 by 2.
     */
    lemma ExitOnFoot()
      requires Valid() && RoomsReachable(openCells, width, height)
      ensures Walkable(openCells, (1, 1), (exitX, exitY)) <==> !(width == 2 && height == 2)
    {
      if width == 2 && height == 2 {
        ExitCutOff(visitedCells, openCells);
      } else {
        ExitWalkable(openCells, width, height);
      }
    }

    /** In a Valid maze the start room (1, 1) and the exit are open cells, and the exit is where IsExit answers yes. */
    lemma StartAndExitOpen()
      requires Valid()
      ensures !IsWall(1, 1) && !IsWall(exitX, exitY) && IsExit(exitX, exitY)
    {
    }

    /**
     * Randomized depth-first carving from the unvisited room (x, y): it marks
     * (x, y) visited and open, shuffles the four directions, and carves
     * towards each of them in the shuffled order. The growth it makes from
     * the old flags to the new is the one Grew describes, every in-grid
     * room two steps from (x, y) ends visited, and every cell it visits can
     * be reached from (x, y) through the cells it opened.
     */
    method GenerateMazeRecursive(x: int, y: int)
      requires Synced() && IsInsideGrid(x, y) && x % 2 == 1 && y % 2 == 1
      requires RoomsAreOpen(visitedCells, openCells)
      modifies this`visitedCells, this`openCells, grid
      decreases Cells(width, height) - visitedCells, if (x, y) in visitedCells then 2 else 0
      ensures Synced() && RoomsAreOpen(visitedCells, openCells)
      ensures (x, y) in visitedCells && NeighboursIn(visitedCells, (x, y), width, height)
      ensures Grew(old(visitedCells), old(openCells), visitedCells, openCells, width, height)
      ensures LinkedTo((x, y), old(visitedCells), visitedCells, openCells)
    {
      MarkRoom(x, y);
      ghost var startVisited, startOpen := visitedCells, openCells;
      GrewNothing(startVisited, startOpen, width, height);
      LinkedStart((x, y), old(visitedCells), openCells);

      var directions := ShuffleDirections();

      for i := 0 to 4
        invariant Synced() && RoomsAreOpen(visitedCells, openCells)
        invariant Grew(startVisited, startOpen, visitedCells, openCells, width, height)
        invariant LinkedTo((x, y), old(visitedCells), visitedCells, openCells)
        invariant forall k :: 0 <= k < i ==> Explored(visitedCells, (x, y), directions[k], width, height)
      {
        ghost var loopVisited, loopOpen := visitedCells, openCells;
        DirectionIsUnit(directions, i);
        RemainingShrinks(Cells(width, height), old(visitedCells), visitedCells, (x, y));
        CarveToward(x, y, directions[i]);
        GrewTwice(startVisited, startOpen, loopVisited, loopOpen, visitedCells, openCells, width, height);
        ExploredPrefix(loopVisited, visitedCells, (x, y), directions, i, width, height);
        LinkedTwice((x, y), old(visitedCells), loopVisited, visitedCells, loopOpen, openCells);
      }
      AllDirectionsExplored(visitedCells, (x, y), directions, width, height);
      FinishRoom(old(visitedCells), old(openCells), visitedCells, openCells, width, height, (x, y));
    }

    /**
     * One pass of the exploration loop from the visited room (x, y) along the
     * unit direction d: when the room two steps away lies in the grid
     * and is unvisited, the cell between is opened and carving goes on from
     * that room; otherwise nothing changes. Either way that room, if it lies
     * in the grid, is visited afterwards, and every cell visited on the way
     * can be reached from (x, y) through open cells.
     */
    method CarveToward(x: int, y: int, d: (int, int))
      requires Synced() && IsInsideGrid(x, y) && x % 2 == 1 && y % 2 == 1
      requires (x, y) in visitedCells && IsUnit(d)
      requires RoomsAreOpen(visitedCells, openCells)
      modifies this`visitedCells, this`openCells, grid
      decreases Cells(width, height) - visitedCells, 1
      ensures Synced() && RoomsAreOpen(visitedCells, openCells)
      ensures Explored(visitedCells, (x, y), d, width, height)
      ensures Grew(old(visitedCells), old(openCells), visitedCells, openCells, width, height)
      ensures LinkedTo((x, y), old(visitedCells), visitedCells, openCells)
    {
      var nx := x + d.0 * 2;
      var ny := y + d.1 * 2;
      if IsInsideGrid(nx, ny) && !IsVisited(nx, ny) {
        MidpointInside((x, y), d, width, height);
        OpenCell(x + d.0, y + d.1);
        assert openCells == old(openCells) + {Midpoint((x, y), d)};
        GenerateMazeRecursive(nx, ny);
        CarveStep(old(visitedCells), old(openCells), visitedCells, openCells, width, height, (x, y), d);
        assert JoinedAlong((x, y), Neighbour((x, y), d), d, openCells);
        LinkedThrough((x, y), d, old(visitedCells), visitedCells, openCells);
      } else {
        GrewNothing(visitedCells, openCells, width, height);
        LinkedNothing((x, y), visitedCells, openCells);
      }
    }
  }
}
