// The lattice that maze generation walks: rooms at odd coordinates, step-2
// moves between them, and the corridor cell in the middle of each move.
// Everything here is about sets of coordinates, so that what generation
// promises can be stated and composed independently of the grid buffer.

module Carving {
  import opened DirectionShuffle

  type Coord = (int, int)

  predicate Inside(c: Coord, width: int, height: int)
  {
    0 <= c.0 < width && 0 <= c.1 < height
  }

  ghost function Cells(width: int, height: int): set<Coord>
  {
    set cx, cy | 0 <= cx < width && 0 <= cy < height :: (cx, cy)
  }

  /** The cell two steps from c along d: the next room in that direction. */
  function Neighbour(c: Coord, d: (int, int)): Coord
  {
    (c.0 + d.0 * 2, c.1 + d.1 * 2)
  }

  /** The cell one step from c along d: the wall between c and Neighbour(c, d). */
  function Midpoint(c: Coord, d: (int, int)): Coord
  {
    (c.0 + d.0, c.1 + d.1)
  }

  /**
   * Whenever the room two steps away lies in the grid, so does the cell
   * between, so carving it is never an out-of-range write.
   */
  lemma MidpointInside(c: Coord, d: (int, int), width: int, height: int)
    requires IsUnit(d) && Inside(c, width, height) && Inside(Neighbour(c, d), width, height)
    ensures Inside(Midpoint(c, d), width, height)
  {
  }

  /** b is two cells away from a along one of the four directions: one move of the carving lattice. */
  predicate IsStep(a: Coord, b: Coord)
  {
    (b.0 == a.0 && (b.1 == a.1 - 2 || b.1 == a.1 + 2)) ||
    (b.1 == a.1 && (b.0 == a.0 - 2 || b.0 == a.0 + 2))
  }

  /** The room two steps along d, if it lies in the grid, has been visited. */
  ghost predicate Explored(visited: set<Coord>, c: Coord, d: (int, int), width: int, height: int)
  {
    Inside(Neighbour(c, d), width, height) ==> Neighbour(c, d) in visited
  }

  /** Every room one step-2 move from c that lies in the grid has been visited. */
  ghost predicate NeighboursIn(visited: set<Coord>, c: Coord, width: int, height: int)
  {
    Explored(visited, c, (0, -1), width, height) && Explored(visited, c, (0, 1), width, height) &&
    Explored(visited, c, (-1, 0), width, height) && Explored(visited, c, (1, 0), width, height)
  }

  /** c is the corridor cell between two visited rooms, one above the other or side by side. */
  ghost predicate IsCorridor(visited: set<Coord>, c: Coord)
  {
    (c.0 % 2 == 1 && c.1 % 2 == 0 && (c.0, c.1 - 1) in visited && (c.0, c.1 + 1) in visited) ||
    (c.0 % 2 == 0 && c.1 % 2 == 1 && (c.0 - 1, c.1) in visited && (c.0 + 1, c.1) in visited)
  }

  /** Every visited cell is an open room, with both coordinates odd like the start (1, 1). */
  ghost predicate RoomsAreOpen(visited: set<Coord>, open: set<Coord>)
  {
    forall c :: c in visited ==> c in open && c.0 % 2 == 1 && c.1 % 2 == 1
  }

  /**
   * What carving does between two states: it only adds visited and open
   * cells, every cell it visits ends with all its step-2 neighbours visited,
   * and every cell it opens is a visited room or a corridor between two.
   */
  ghost predicate Grew(v0: set<Coord>, o0: set<Coord>, v1: set<Coord>, o1: set<Coord>, width: int, height: int)
  {
    v0 <= v1 && o0 <= o1 &&
    (forall c {:trigger c in v1 - v0} :: c in v1 - v0 ==> NeighboursIn(v1, c, width, height)) &&
    (forall c {:trigger c in o1 - o0} :: c in o1 - o0 ==> c in v1 || IsCorridor(v1, c))
  }

  /** Nothing carved yet: the empty growth. */
  lemma GrewNothing(v: set<Coord>, o: set<Coord>, width: int, height: int)
    ensures Grew(v, o, v, o, width, height)
  {
  }

  lemma ExploredGrows(v0: set<Coord>, v1: set<Coord>, c: Coord, d: (int, int), width: int, height: int)
    requires v0 <= v1 && Explored(v0, c, d, width, height)
    ensures Explored(v1, c, d, width, height)
  {
  }

  /**
   * One more direction explored: if the first i entries of directions were
   * explored in v0, the visited set only grew to v1, and entry i is explored
   * in v1, then the first i + 1 entries are.
   */
  lemma ExploredPrefix(v0: set<Coord>, v1: set<Coord>, c: Coord, directions: seq<(int, int)>, i: int,
                       width: int, height: int)
    requires v0 <= v1 && 0 <= i < |directions|
    requires forall k :: 0 <= k < i ==> Explored(v0, c, directions[k], width, height)
    requires Explored(v1, c, directions[i], width, height)
    ensures forall k :: 0 <= k < i + 1 ==> Explored(v1, c, directions[k], width, height)
  {
  }

  /**
   * Once every entry of a permutation of the four directions is explored
   * from c, all four step-2 neighbours of c are.
   */
  lemma AllDirectionsExplored(visited: set<Coord>, c: Coord, directions: seq<(int, int)>, width: int, height: int)
    requires multiset(directions) == multiset(Directions)
    requires forall k :: 0 <= k < |directions| ==> Explored(visited, c, directions[k], width, height)
    ensures NeighboursIn(visited, c, width, height)
  {
  }

  /**
   * One carving step: from state (v, o) the corridor towards the unvisited
   * room next = Neighbour(cur, d) is opened, and the recursive call from next
   * grows (v, o + {corridor}) into (v', o'). The step as a whole is a growth
   * from (v, o): the corridor lies between the visited rooms cur and next.
   */
  lemma {:induction false} CarveStep(v: set<Coord>, o: set<Coord>, v': set<Coord>, o': set<Coord>,
                                     width: int, height: int, cur: Coord, d: (int, int))
    requires IsUnit(d) && cur in v && Neighbour(cur, d) in v'
    requires cur.0 % 2 == 1 && cur.1 % 2 == 1
    requires Grew(v, o + {Midpoint(cur, d)}, v', o', width, height)
    ensures Grew(v, o, v', o', width, height)
  {
    forall c | c in o' - o
      ensures c in v' || IsCorridor(v', c)
    {
      if c == Midpoint(cur, d) {
        assert IsCorridor(v', c);
      } else {
        assert c in o' - (o + {Midpoint(cur, d)});
      }
    }
  }

  /**
   * The end of one call: generation from p first marks p visited and open,
   * reaching (v0 + {p}, o0 + {p}); once the loop has explored all four
   * directions from p the whole call is a growth from (v0, o0).
   */
  lemma {:induction false} FinishRoom(v0: set<Coord>, o0: set<Coord>, v1: set<Coord>, o1: set<Coord>,
                                      width: int, height: int, p: Coord)
    requires Grew(v0 + {p}, o0 + {p}, v1, o1, width, height)
    requires NeighboursIn(v1, p, width, height)
    ensures Grew(v0, o0, v1, o1, width, height)
  {
    forall c | c in v1 - v0
      ensures NeighboursIn(v1, c, width, height)
    {
      if c != p {
        assert c in v1 - (v0 + {p});
      }
    }
    forall c | c in o1 - o0
      ensures c in v1 || IsCorridor(v1, c)
    {
      if c != p {
        assert c in o1 - (o0 + {p});
      }
    }
  }

  /**
   * A growth from nothing leaves every visited cell with its in-grid step-2
   * neighbours visited, and every open cell a visited room or a corridor.
   */
  lemma GrownFromNothing(v: set<Coord>, o: set<Coord>, width: int, height: int)
    requires Grew({}, {}, v, o, width, height)
    ensures Closed(v, width, height)
    ensures forall c :: c in o ==> c in v || IsCorridor(v, c)
  {
    forall c | c in v
      ensures NeighboursIn(v, c, width, height)
    {
      assert c in v - {};
    }
    forall c | c in o
      ensures c in v || IsCorridor(v, c)
    {
      assert c in o - {};
    }
  }

  /** A walk of step-2 moves from the start (1, 1) that stays inside a width-by-height grid. */
  ghost predicate IsStepPath(path: seq<Coord>, width: int, height: int)
  {
    |path| > 0 && path[0] == (1, 1) &&
    (forall k :: 0 <= k < |path| ==> Inside(path[k], width, height)) &&
    (forall k :: 0 <= k < |path| - 1 ==> IsStep(path[k], path[k + 1]))
  }

  /** Every visited cell has all of its in-grid step-2 neighbours visited. */
  ghost predicate Closed(visited: set<Coord>, width: int, height: int)
  {
    forall c {:trigger NeighboursIn(visited, c, width, height)} :: c in visited ==> NeighboursIn(visited, c, width, height)
  }

  /**
   * A set of cells that contains the start and is closed under step-2 moves
   * contains the end of every step-2 walk from the start.
   */
  lemma {:induction false} StepPathStaysIn(visited: set<Coord>, width: int, height: int, path: seq<Coord>)
    requires (1, 1) in visited && Closed(visited, width, height)
    requires IsStepPath(path, width, height)
    ensures path[|path| - 1] in visited
    decreases |path|
  {
    if |path| > 1 {
      var prefix := path[..|path| - 1];
      assert IsStepPath(prefix, width, height) by {
        forall k | 0 <= k < |prefix| - 1
          ensures IsStep(prefix[k], prefix[k + 1])
        {
          assert IsStep(path[k], path[k + 1]);
        }
      }
      StepPathStaysIn(visited, width, height, prefix);
      var a, b := path[|path| - 2], path[|path| - 1];
      assert IsStep(a, b);
      assert NeighboursIn(visited, a, width, height);
      if b == Neighbour(a, (0, -1)) {
      } else if b == Neighbour(a, (0, 1)) {
      } else if b == Neighbour(a, (-1, 0)) {
      } else {
        assert b == Neighbour(a, (1, 0));
      }
    }
  }

  /**
   * A step-2 walk from (1, 1) to the room (x, y): along row 1 to column x,
   * then down column x. Every cell of it lies in the rectangle between
   * (1, 1) and (x, y), so the walk stays inside any grid containing (x, y).
   */
  function RoomPath(x: int, y: int): (path: seq<Coord>)
    requires x >= 1 && y >= 1 && x % 2 == 1 && y % 2 == 1
    ensures |path| > 0 && path[0] == (1, 1) && path[|path| - 1] == (x, y)
    ensures forall k :: 0 <= k < |path| ==> 1 <= path[k].0 <= x && 1 <= path[k].1 <= y
    ensures forall k :: 0 <= k < |path| - 1 ==> IsStep(path[k], path[k + 1])
    decreases x + y
  {
    if y > 1 then RoomPath(x, y - 2) + [(x, y)]
    else if x > 1 then RoomPath(x - 2, 1) + [(x, 1)]
    else [(1, 1)]
  }

  /**
   * Closure under step-2 moves reaches every room: a closed set holding the
   * start holds every in-grid cell with both coordinates odd.
   */
  lemma AllRoomsIn(visited: set<Coord>, width: int, height: int, room: Coord)
    requires (1, 1) in visited && Closed(visited, width, height)
    requires Inside(room, width, height) && room.0 % 2 == 1 && room.1 % 2 == 1
    ensures room in visited
  {
    var path := RoomPath(room.0, room.1);
    assert IsStepPath(path, width, height);
    StepPathStaysIn(visited, width, height, path);
  }

  /** Two growths in a row are one growth. */
  lemma {:induction false} GrewTwice(v0: set<Coord>, o0: set<Coord>, v1: set<Coord>, o1: set<Coord>,
                                     v2: set<Coord>, o2: set<Coord>, width: int, height: int)
    requires Grew(v0, o0, v1, o1, width, height) && Grew(v1, o1, v2, o2, width, height)
    ensures Grew(v0, o0, v2, o2, width, height)
  {
    forall c | c in v2 - v0
      ensures NeighboursIn(v2, c, width, height)
    {
      if c in v1 {
        assert c in v1 - v0;
        ExploredGrows(v1, v2, c, (0, -1), width, height);
        ExploredGrows(v1, v2, c, (0, 1), width, height);
        ExploredGrows(v1, v2, c, (-1, 0), width, height);
        ExploredGrows(v1, v2, c, (1, 0), width, height);
      } else {
        assert c in v2 - v1;
      }
    }
    forall c | c in o2 - o0
      ensures c in v2 || IsCorridor(v2, c)
    {
      if c in o1 {
        assert c in o1 - o0;
        if c !in v1 {
          assert IsCorridor(v1, c);
        }
      } else {
        assert c in o2 - o1;
      }
    }
  }

  /** Every in-grid cell with both coordinates odd is in visited. */
  ghost predicate AllRoomsVisited(visited: set<Coord>, width: int, height: int)
  {
    forall c :: Inside(c, width, height) && c.0 % 2 == 1 && c.1 % 2 == 1 ==> c in visited
  }

  /**
   * Once carving from (1, 1) is closed under step-2 moves, every room of the
   * grid is visited; when both dimensions are odd, that includes the cell
   * (width - 2, height - 2).
   */
  lemma ClosedReachesAllRooms(visited: set<Coord>, width: int, height: int)
    requires (1, 1) in visited && Closed(visited, width, height) && width >= 2 && height >= 2
    ensures AllRoomsVisited(visited, width, height)
    ensures width % 2 == 1 && height % 2 == 1 ==> (width - 2, height - 2) in visited
  {
    forall c | Inside(c, width, height) && c.0 % 2 == 1 && c.1 % 2 == 1
      ensures c in visited
    {
      AllRoomsIn(visited, width, height, c);
    }
    if width % 2 == 1 && height % 2 == 1 {
      assert (width - 2) % 2 == 1 && (height - 2) % 2 == 1;
      assert Inside((width - 2, height - 2), width, height);
    }
  }

  /** b is the room two cells from a along d, and both b and the corridor cell between are open. */
  ghost predicate JoinedAlong(a: Coord, b: Coord, d: (int, int), open: set<Coord>)
  {
    b == Neighbour(a, d) && Midpoint(a, d) in open && b in open
  }

  /** One step-2 move from a to b through open cells, in any of the four directions. */
  ghost predicate OpenStep(a: Coord, b: Coord, open: set<Coord>)
  {
    JoinedAlong(a, b, (0, -1), open) || JoinedAlong(a, b, (0, 1), open) ||
    JoinedAlong(a, b, (-1, 0), open) || JoinedAlong(a, b, (1, 0), open)
  }

  /** The direction an open step-2 move goes in. */
  ghost function StepDirection(a: Coord, b: Coord, open: set<Coord>): (d: (int, int))
    requires OpenStep(a, b, open)
    ensures IsUnit(d) && JoinedAlong(a, b, d, open)
  {
    if JoinedAlong(a, b, (0, -1), open) then (0, -1)
    else if JoinedAlong(a, b, (0, 1), open) then (0, 1)
    else if JoinedAlong(a, b, (-1, 0), open) then (-1, 0)
    else (1, 0)
  }

  /** A walk of step-2 moves each of which passes through open cells only. */
  ghost predicate IsOpenWalk(path: seq<Coord>, open: set<Coord>)
  {
    |path| > 0 && forall k :: 0 <= k < |path| - 1 ==> OpenStep(path[k], path[k + 1], open)
  }

  /** b can be reached from a through open cells, moving between rooms across open corridors. */
  ghost predicate Reaches(open: set<Coord>, a: Coord, b: Coord)
  {
    exists path :: IsOpenWalk(path, open) && path[0] == a && path[|path| - 1] == b
  }

  lemma ReachesSelf(open: set<Coord>, a: Coord)
    ensures Reaches(open, a, a)
  {
    assert IsOpenWalk([a], open);
  }

  /** Crossing one open corridor to an open room is a walk. */
  lemma ReachesStep(open: set<Coord>, a: Coord, d: (int, int))
    requires IsUnit(d) && JoinedAlong(a, Neighbour(a, d), d, open)
    ensures Reaches(open, a, Neighbour(a, d))
  {
    var path := [a, Neighbour(a, d)];
    assert OpenStep(path[0], path[1], open);
    assert IsOpenWalk(path, open);
  }

  /** Opening more cells never disconnects anything. */
  lemma ReachesGrows(o0: set<Coord>, o1: set<Coord>, a: Coord, b: Coord)
    requires o0 <= o1 && Reaches(o0, a, b)
    ensures Reaches(o1, a, b)
  {
    var path :| IsOpenWalk(path, o0) && path[0] == a && path[|path| - 1] == b;
    forall k | 0 <= k < |path| - 1
      ensures OpenStep(path[k], path[k + 1], o1)
    {
      assert OpenStep(path[k], path[k + 1], o0);
    }
    assert IsOpenWalk(path, o1);
  }

  /** Walks compose: a walk from a to b followed by one from b to c is a walk from a to c. */
  lemma ReachesTrans(open: set<Coord>, a: Coord, b: Coord, c: Coord)
    requires Reaches(open, a, b) && Reaches(open, b, c)
    ensures Reaches(open, a, c)
  {
    var p :| IsOpenWalk(p, open) && p[0] == a && p[|p| - 1] == b;
    var q :| IsOpenWalk(q, open) && q[0] == b && q[|q| - 1] == c;
    var r := p + q[1..];
    forall k | 0 <= k < |r| - 1
      ensures OpenStep(r[k], r[k + 1], open)
    {
      if k < |p| - 1 {
        assert r[k] == p[k] && r[k + 1] == p[k + 1];
        assert OpenStep(p[k], p[k + 1], open);
      } else {
        var j := k - (|p| - 1);
        assert r[k] == q[j] && r[k + 1] == q[j + 1];
        assert OpenStep(q[j], q[j + 1], open);
      }
    }
    assert IsOpenWalk(r, open);
    assert r[|r| - 1] == c;
  }

  /** Every cell visited between v0 and v1 can be reached from root through open cells. */
  ghost predicate LinkedTo(root: Coord, v0: set<Coord>, v1: set<Coord>, open: set<Coord>)
  {
    forall c {:trigger c in v1 - v0} :: c in v1 - v0 ==> Reaches(open, root, c)
  }

  lemma LinkedNothing(root: Coord, v: set<Coord>, open: set<Coord>)
    ensures LinkedTo(root, v, v, open)
  {
  }

  /** Marking the room root visited links it to itself. */
  lemma {:induction false} LinkedStart(root: Coord, v: set<Coord>, open: set<Coord>)
    ensures LinkedTo(root, v, v + {root}, open)
  {
    forall c | c in (v + {root}) - v
      ensures Reaches(open, root, c)
    {
      ReachesSelf(open, root);
    }
  }

  /** Two linked stretches of carving from the same root make one, as the open set grows. */
  lemma {:induction false} LinkedTwice(root: Coord, v0: set<Coord>, v1: set<Coord>, v2: set<Coord>,
                                       o1: set<Coord>, o2: set<Coord>)
    requires LinkedTo(root, v0, v1, o1) && LinkedTo(root, v1, v2, o2) && o1 <= o2
    ensures LinkedTo(root, v0, v2, o2)
  {
    forall c | c in v2 - v0
      ensures Reaches(o2, root, c)
    {
      if c in v1 {
        assert c in v1 - v0;
        ReachesGrows(o1, o2, root, c);
      } else {
        assert c in v2 - v1;
      }
    }
  }

  /**
   * Carving on from the room next = Neighbour(root, d) across the open
   * corridor between them: whatever is linked to next is linked to root.
   */
  lemma {:induction false} LinkedThrough(root: Coord, d: (int, int), v0: set<Coord>, v1: set<Coord>, open: set<Coord>)
    requires IsUnit(d) && JoinedAlong(root, Neighbour(root, d), d, open)
    requires LinkedTo(Neighbour(root, d), v0, v1, open)
    ensures LinkedTo(root, v0, v1, open)
  {
    forall c | c in v1 - v0
      ensures Reaches(open, root, c)
    {
      ReachesStep(open, root, d);
      ReachesTrans(open, root, Neighbour(root, d), c);
    }
  }

  /** Every cell of v can be reached from (1, 1) through open cells. */
  ghost predicate AllLinked(v: set<Coord>, open: set<Coord>)
  {
    forall c :: c in v ==> Reaches(open, (1, 1), c)
  }

  /** Carving from an empty visited set at (1, 1) links everything it visits, through any larger open set. */
  lemma {:induction false} LinkedFromNothing(v: set<Coord>, o: set<Coord>, o': set<Coord>)
    requires LinkedTo((1, 1), {}, v, o) && o <= o'
    ensures AllLinked(v, o')
  {
    forall c | c in v
      ensures Reaches(o', (1, 1), c)
    {
      assert c in v - {};
      ReachesGrows(o, o', (1, 1), c);
    }
  }

  /** Every room of the grid can be reached from (1, 1) through open cells. */
  ghost predicate RoomsReachable(open: set<Coord>, width: int, height: int)
  {
    forall c :: Inside(c, width, height) && c.0 % 2 == 1 && c.1 % 2 == 1 ==> Reaches(open, (1, 1), c)
  }

  lemma LinkedRoomsReachable(v: set<Coord>, open: set<Coord>, width: int, height: int)
    requires AllRoomsVisited(v, width, height) && AllLinked(v, open)
    ensures RoomsReachable(open, width, height)
  {
  }

  /** b is one of the four cells next to a: one move of the player. */
  predicate Adjacent(a: Coord, b: Coord)
  {
    IsUnit((b.0 - a.0, b.1 - a.1))
  }

  /** A walk of single steps between neighbouring cells, every cell of which is open. */
  ghost predicate IsUnitWalk(path: seq<Coord>, open: set<Coord>)
  {
    |path| > 0 &&
    (forall k :: 0 <= k < |path| ==> path[k] in open) &&
    forall k :: 0 <= k < |path| - 1 ==> Adjacent(path[k], path[k + 1])
  }

  /** A player standing on a can walk to b, one cell at a time, without entering a wall. */
  ghost predicate Walkable(open: set<Coord>, a: Coord, b: Coord)
  {
    exists path :: IsUnitWalk(path, open) && path[0] == a && path[|path| - 1] == b
  }

  /** A walk can be extended by one step to an open neighbouring cell. */
  lemma WalkableExtend(open: set<Coord>, a: Coord, b: Coord, c: Coord)
    requires Walkable(open, a, b) && Adjacent(b, c) && c in open
    ensures Walkable(open, a, c)
  {
    var p :| IsUnitWalk(p, open) && p[0] == a && p[|p| - 1] == b;
    var q := p + [c];
    assert forall k :: 0 <= k < |p| ==> q[k] == p[k];
    assert IsUnitWalk(q, open);
  }

  /** Each room of an open step-2 walk can be walked to cell by cell, through the corridors it crosses. */
  lemma {:induction false} WalkablePrefix(path: seq<Coord>, open: set<Coord>, k: int)
    requires IsOpenWalk(path, open) && path[0] in open && 0 <= k < |path|
    ensures Walkable(open, path[0], path[k])
    decreases k
  {
    if k == 0 {
      assert IsUnitWalk([path[0]], open);
    } else {
      WalkablePrefix(path, open, k - 1);
      assert OpenStep(path[k - 1], path[k], open);
      var d := StepDirection(path[k - 1], path[k], open);
      var m := Midpoint(path[k - 1], d);
      WalkableExtend(open, path[0], path[k - 1], m);
      WalkableExtend(open, path[0], m, path[k]);
    }
  }

  /** Reaching a room across open corridors means a player can walk there from an open start. */
  lemma WalkableFromReaches(open: set<Coord>, a: Coord, b: Coord)
    requires Reaches(open, a, b) && a in open
    ensures Walkable(open, a, b)
  {
    var path :| IsOpenWalk(path, open) && path[0] == a && path[|path| - 1] == b;
    WalkablePrefix(path, open, |path| - 1);
  }

  /**
   * The exit (w - 2, h - 2) can be walked to from (1, 1) in every grid but
   * the 2 by 2 one, whatever its parity. The last room (the largest odd
   * coordinates) is the exit itself, a cell next to it, or, when both sides
   * are even, the corner (w - 1, h - 1), entered through a corridor next to
   * the exit.
   */
  lemma ExitWalkable(open: set<Coord>, w: int, h: int)
    requires w >= 2 && h >= 2 && !(w == 2 && h == 2)
    requires forall c :: c in open ==> Inside(c, w, h)
    requires (1, 1) in open && (w - 2, h - 2) in open && RoomsReachable(open, w, h)
    ensures Walkable(open, (1, 1), (w - 2, h - 2))
  {
    var exit := (w - 2, h - 2);
    var room := (if w % 2 == 0 then w - 1 else w - 2, if h % 2 == 0 then h - 1 else h - 2);
    assert Inside(room, w, h) && room.0 % 2 == 1 && room.1 % 2 == 1;
    WalkableFromReaches(open, (1, 1), room);
    if room == exit {
    } else if room.0 == w - 2 || room.1 == h - 2 {
      assert Adjacent(room, exit);
      WalkableExtend(open, (1, 1), room, exit);
    } else {
      var path :| IsOpenWalk(path, open) && path[0] == (1, 1) && path[|path| - 1] == room;
      var p := path[|path| - 2];
      assert OpenStep(p, room, open);
      var d := StepDirection(p, room, open);
      var m := Midpoint(p, d);
      assert Inside(m, w, h);
      assert Adjacent(room, m) && Adjacent(m, exit);
      WalkableExtend(open, (1, 1), room, m);
      WalkableExtend(open, (1, 1), m, exit);
    }
  }

  /** A walk from (1, 1) among open cells that are only (1, 1) and (0, 0) never leaves (1, 1). */
  lemma {:induction false} StuckAtStart(path: seq<Coord>, open: set<Coord>, k: int)
    requires IsUnitWalk(path, open) && path[0] == (1, 1) && 0 <= k < |path|
    requires forall c :: c in open ==> c == (1, 1) || c == (0, 0)
    ensures path[k] == (1, 1)
    decreases k
  {
    if k > 0 {
      StuckAtStart(path, open, k - 1);
      assert Adjacent(path[k - 1], path[k]);
    }
  }

  /**
   * In the 2 by 2 grid the only room is (1, 1), no corridor has two rooms
   * beside it, so the exit (0, 0) is an open cell no walk reaches.
   */
  lemma ExitCutOff(visited: set<Coord>, open: set<Coord>)
    requires RoomsAreOpen(visited, open)
    requires forall c :: c in visited ==> Inside(c, 2, 2)
    requires forall c :: c in open ==> Inside(c, 2, 2) && (c in visited || IsCorridor(visited, c) || c == (0, 0))
    ensures !Walkable(open, (1, 1), (0, 0))
  {
    forall c | c in open
      ensures c == (1, 1) || c == (0, 0)
    {
      assert !IsCorridor(visited, c);
    }
    if Walkable(open, (1, 1), (0, 0)) {
      var path :| IsUnitWalk(path, open) && path[0] == (1, 1) && path[|path| - 1] == (0, 0);
      StuckAtStart(path, open, |path| - 1);
    }
  }

  /**
   * The unvisited part of a universe never grows as cells are visited, and
   * it shrinks strictly when a cell of it that was unvisited is visited.
   */
  lemma RemainingShrinks(all: set<Coord>, v0: set<Coord>, v1: set<Coord>, p: Coord)
    requires p in all && p in v1 && v0 <= v1
    ensures all - v1 <= all - v0
    ensures p !in v0 ==> all - v1 < all - v0
  {
  }
}
