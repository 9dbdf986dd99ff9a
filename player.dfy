// The player: a position on the maze grid and a movement cooldown. The clock
// the source reads on every move is passed in as the current time.

module Players {
  import opened Carving
  import opened Mazes

  class Player {
    var x: int
    var y: int
    /** Minimum time, in seconds, between two accepted moves. */
    const moveCooldown: real
    /** When the last move was accepted, blocked or not. */
    var lastMoveTime: real

    /** A player standing on (startX, startY) whose first move is accepted from time 0.2 on. */
    constructor (startX: int, startY: int)
      ensures x == startX && y == startY
      ensures moveCooldown == 0.2 && lastMoveTime == 0.0
    {
      x := startX;
      y := startY;
      moveCooldown := 0.2;
      lastMoveTime := 0.0;
    }

    /**
     * A move by (dx, dy) at currentTime. Before the cooldown has passed since
     * the last accepted move nothing changes. Once it has, the move is
     * accepted: the player steps onto the target unless the target is a wall
     * (including any cell outside the grid), and the last move time becomes
     * currentTime even when the step was blocked. A player on an open cell
     * therefore stays on an open cell, and moves at most by (dx, dy).
     */
    method Move(dx: int, dy: int, maze: Maze, currentTime: real)
      requires maze.Synced()
      modifies this
      ensures currentTime - old(lastMoveTime) < moveCooldown ==>
                x == old(x) && y == old(y) && lastMoveTime == old(lastMoveTime)
      ensures currentTime - old(lastMoveTime) >= moveCooldown ==> lastMoveTime == currentTime
      ensures currentTime - old(lastMoveTime) >= moveCooldown && !maze.IsWall(old(x) + dx, old(y) + dy) ==>
                x == old(x) + dx && y == old(y) + dy
      ensures maze.IsWall(old(x) + dx, old(y) + dy) ==> x == old(x) && y == old(y)
      ensures !maze.IsWall(old(x), old(y)) ==> !maze.IsWall(x, y)
      ensures maze.IsInsideGrid(old(x), old(y)) ==> maze.IsInsideGrid(x, y)
    {
      if currentTime - lastMoveTime >= moveCooldown {
        var newX := x + dx;
        var newY := y + dy;
        if !maze.IsWall(newX, newY) {
          x := newX;
          y := newY;
        }
        lastMoveTime := currentTime;
      }
    }

    /** The column the player stands on. */
    function GetX(): (r: int)
      reads this
      ensures r == x
    {
      x
    }

    /** The row the player stands on. */
    function GetY(): (r: int)
      reads this
      ensures r == y
    {
      y
    }
  }

  /**
   * A freshly constructed maze with the player placed at (1, 1), as the game
   * does when a level starts: the player stands on an open cell with its
   * cooldown and clock fresh, every room can be reached, the exit is the one
   * cell where IsExit holds, and the player can walk to it unless the grid is
   * 2 by 2.
   */
  method StartLevel(w: int, h: int) returns (maze: Maze, player: Player)
    requires w >= 2 && h >= 2
    ensures maze.Valid() && fresh(maze) && fresh(player)
    ensures player.x == 1 && player.y == 1 && !maze.IsWall(player.x, player.y)
    ensures player.moveCooldown == 0.2 && player.lastMoveTime == 0.0
    ensures maze.width == w && maze.height == h
    ensures AllRoomsVisited(maze.visitedCells, w, h) && RoomsReachable(maze.openCells, w, h)
    ensures maze.IsExit(w - 2, h - 2)
    ensures Walkable(maze.openCells, (1, 1), (w - 2, h - 2)) <==> !(w == 2 && h == 2)
  {
    maze := new Maze(w, h);
    player := new Player(1, 1);
    maze.StartAndExitOpen();
  }
}
