/**
 * The robot and the utility-driven behaviour built on the search: choosing
 * the nearest reachable object, stepping towards it and collecting it.
 */
module Agent {
  import opened Wrappers
  import opened GridModel
  import opened Walks
  import opened Search

  /** A robot on a grid: its position and the history of the cells it has occupied. */
  class Robot {
    const grid: Grid
    var row: int
    var col: int
    var path: seq<Cell>

    /**
     * A robot placed on an interior, non-hurdle cell of the grid; the
     * placement is a parameter instead of a random draw.
     */
    constructor (grid: Grid, row: int, col: int)
      requires grid.Valid()
      requires 1 <= row <= grid.rows - 2 && 1 <= col <= grid.cols - 2
      requires grid.cells[row, col] != Hurdle
      ensures this.grid == grid && this.row == row && this.col == col
      ensures path == [(row, col)]
      ensures Passable(grid, Position()) && !AtBorder()
    {
      this.grid := grid;
      this.row := row;
      this.col := col;
      path := [(row, col)];
    }

    function Position(): (p: Cell)
      reads this
    {
      (row, col)
    }

    /** Moves to position and records it as the newest cell of the history. */
    method MoveTo(position: Cell)
      modifies this
      ensures row == position.0 && col == position.1
      ensures path == old(path) + [position] && path[|path| - 1] == position
    {
      row, col := position.0, position.1;
      path := path + [(row, col)];
    }

    /**
     * The robot stands in the outermost row or column of its grid, where an
     * episode stops; for a robot inside the grid, that is leaving the interior.
     */
    function AtBorder(): (b: bool)
      reads this
      ensures InBounds(grid, Position()) ==>
                (b <==> !(1 <= row <= grid.rows - 2 && 1 <= col <= grid.cols - 2))
    {
      row == 0 || row == grid.rows - 1 || col == 0 || col == grid.cols - 1
    }
  }

  /** a comes strictly before b in row-major order. */
  predicate RowMajorBefore(a: Cell, b: Cell) {
    a.0 < b.0 || (a.0 == b.0 && a.1 < b.1)
  }

  /**
   * An object at distance d from s (other than s itself) is at least as close as
   * every other object reachable from s, and strictly closer than every one
   * that comes before it in row-major order.
   */
  ghost predicate NoCloser(g: Grid, s: Cell, o: Cell, d: nat)
    reads g.cells
    requires g.Valid()
  {
    forall o', q :: IsObject(g, o') && o' != s && IsWalk(g, s, q) && End(s, q) == o' ==>
      d <= |q| && (RowMajorBefore(o', o) ==> d < |q|)
  }

  /**
   * o is the object the robot at s should head for: an object other than s,
   * reachable by a shortest path no longer than that to any other object, and
   * the first in row-major order among the objects at that distance.
   */
  ghost predicate IsNearestObject(g: Grid, s: Cell, o: Cell)
    reads g.cells
    requires g.Valid()
  {
    IsObject(g, o) && o != s &&
    exists p :: IsShortestPath(g, s, o, p) && NoCloser(g, s, o, |p|)
  }

  /** The nearest object is unique: the distance and the row-major tie-break single it out. */
  lemma NearestIsUnique(g: Grid, s: Cell, o1: Cell, o2: Cell)
    requires g.Valid() && IsNearestObject(g, s, o1) && IsNearestObject(g, s, o2)
    ensures o1 == o2
  {
    var p1 :| IsShortestPath(g, s, o1, p1) && NoCloser(g, s, o1, |p1|);
    var p2 :| IsShortestPath(g, s, o2, p2) && NoCloser(g, s, o2, |p2|);
  }

  /** The cell (r, c) lies in the part of the grid scanned before position (i, j) in row-major order. */
  predicate Scanned(o: Cell, i: int, j: int) {
    o.0 < i || (o.0 == i && o.1 < j)
  }

  /**
   * The invariant of the scan up to (i, j): a candidate, when there is one,
   * is a scanned object other than s with shortest path best of length
   * minDistance; every walk from s to a scanned object other than s is at
   * least that long, and longer when the object comes before the candidate.
   * Without a candidate no scanned object other than s is reachable.
   */
  ghost predicate ScanInv(g: Grid, s: Cell, i: int, j: int, nearest: Option<Cell>, minDistance: Option<nat>,
                          best: seq<Cell>)
    reads g.cells
    requires g.Valid()
  {
    (nearest.None? <==> minDistance.None?) &&
    (nearest.Some? ==>
       IsObject(g, nearest.value) && nearest.value != s && Scanned(nearest.value, i, j) &&
       IsShortestPath(g, s, nearest.value, best) && |best| == minDistance.value) &&
    forall o, q :: IsObject(g, o) && o != s && Scanned(o, i, j) && IsWalk(g, s, q) && End(s, q) == o ==>
      nearest.Some? && minDistance.value <= |q| && (RowMajorBefore(o, nearest.value) ==> minDistance.value < |q|)
  }

  /**
   * One cell of the scan: an object whose search found a non-empty path
   * strictly shorter than the current minimum becomes the candidate; any
   * other cell leaves the candidate as it is.
   */
  lemma ScanStep(g: Grid, s: Cell, i: int, j: int, nearest: Option<Cell>, minDistance: Option<nat>, best: seq<Cell>,
                 result: Option<seq<Cell>>, nearest': Option<Cell>, minDistance': Option<nat>, best': seq<Cell>)
    requires g.Valid() && ScanInv(g, s, i, j, nearest, minDistance, best)
    requires IsObject(g, (i, j)) ==>
               (result.Some? ==> IsShortestPath(g, s, (i, j), result.value)) &&
               (result.None? <==> !Reachable(g, s, (i, j))) &&
               (s == (i, j) ==> result == Some([]))
    requires var better := IsObject(g, (i, j)) && result.Some? && result.value != [] &&
                           (minDistance.None? || |result.value| < minDistance.value);
             nearest' == (if better then Some((i, j)) else nearest) &&
             minDistance' == (if better then Some(|result.value| as nat) else minDistance) &&
             best' == (if better then result.value else best)
    ensures ScanInv(g, s, i, j + 1, nearest', minDistance', best')
  {
    if IsObject(g, (i, j)) && (i, j) != s && result.Some? {
      assert End(s, result.value) != s;
    }
  }

  /** Finishing a row of the scan is starting the next one. */
  lemma ScanNextRow(g: Grid, s: Cell, i: int, nearest: Option<Cell>, minDistance: Option<nat>, best: seq<Cell>)
    requires g.Valid() && ScanInv(g, s, i, g.cols, nearest, minDistance, best)
    ensures ScanInv(g, s, i + 1, 0, nearest, minDistance, best)
  {
  }

  /**
   * One cell of the scan of find_nearest_object: an object cell is searched
   * for from s, and becomes the candidate when its path is non-empty and
   * strictly shorter than the current minimum.
   */
  method ScanCell(grid: Grid, s: Cell, i: int, j: int, nearest: Option<Cell>, minDistance: Option<nat>,
                  ghost best: seq<Cell>) returns (nearest': Option<Cell>, minDistance': Option<nat>, ghost best': seq<Cell>)
    requires grid.Valid() && 0 <= i < grid.rows && 0 <= j < grid.cols
    requires ScanInv(grid, s, i, j, nearest, minDistance, best)
    ensures ScanInv(grid, s, i, j + 1, nearest', minDistance', best')
  {
    nearest', minDistance', best' := nearest, minDistance, best;
    ghost var result := None;
    if grid.cells[i, j] == Object {
      var path := BfsFindPath(grid, s, (i, j));
      result := path;
      if path.Some? && path.value != [] && (minDistance.None? || |path.value| < minDistance.value) {
        minDistance' := Some(|path.value|);
        nearest' := Some((i, j));
        best' := path.value;
      }
    }
    ScanStep(grid, s, i, j, nearest, minDistance, best, result, nearest', minDistance', best');
  }

  /**
   * The scan of find_nearest_object: every object cell in row-major order is
   * searched for from the robot's cell, and the first one with the strictly
   * smallest non-empty path length is kept.
   */
  method FindNearestObject(grid: Grid, robot: Robot) returns (nearest: Option<Cell>)
    requires grid.Valid()
    ensures nearest.None? ==>
              forall o :: IsObject(grid, o) && o != robot.Position() ==> !Reachable(grid, robot.Position(), o)
    ensures nearest.Some? ==> IsNearestObject(grid, robot.Position(), nearest.value)
  {
    var s := (robot.row, robot.col);
    // None stands for an infinite distance
    var minDistance: Option<nat> := None;
    nearest := None;
    // the shortest path to the candidate
    ghost var best: seq<Cell> := [];
    for i := 0 to grid.rows
      invariant ScanInv(grid, s, i, 0, nearest, minDistance, best)
    {
      for j := 0 to grid.cols
        invariant ScanInv(grid, s, i, j, nearest, minDistance, best)
      {
        nearest, minDistance, best := ScanCell(grid, s, i, j, nearest, minDistance, best);
      }
      ScanNextRow(grid, s, i, nearest, minDistance, best);
    }
    ScanDone(grid, s, nearest, minDistance, best);
  }

  /** After the last row every object has been scanned, which gives the postcondition of the scan. */
  lemma ScanDone(g: Grid, s: Cell, nearest: Option<Cell>, minDistance: Option<nat>, best: seq<Cell>)
    requires g.Valid() && ScanInv(g, s, g.rows, 0, nearest, minDistance, best)
    ensures nearest.None? ==> forall o :: IsObject(g, o) && o != s ==> !Reachable(g, s, o)
    ensures nearest.Some? ==> IsNearestObject(g, s, nearest.value)
  {
    if nearest.Some? {
      assert NoCloser(g, s, nearest.value, |best|);
    }
  }

  /**
   * Picks up the object under the robot: the cell is cleared and true
   * returned exactly when it held an object; no other cell changes.
   */
  method CollectObject(grid: Grid, robot: Robot) returns (collected: bool)
    requires grid.Valid() && InBounds(grid, robot.Position())
    modifies grid.cells
    ensures grid.Valid()
    ensures collected <==> old(grid.cells[robot.row, robot.col]) == Object
    ensures grid.cells[robot.row, robot.col] != Object
    ensures collected ==> grid.cells[robot.row, robot.col] == Empty
    ensures !collected ==> unchanged(grid.cells)
    ensures forall r, c :: 0 <= r < grid.rows && 0 <= c < grid.cols && (r, c) != robot.Position() ==>
              grid.cells[r, c] == old(grid.cells[r, c])
  {
    if grid.cells[robot.row, robot.col] == Object {
      grid.cells[robot.row, robot.col] := Empty;
      return true;
    }
    return false;
  }

  /**
   * One step towards objPos: when a non-empty path exists, the robot moves to
   * its first cell, a passable neighbour one step closer to objPos, and
   * records it; otherwise nothing changes.
   */
  method MoveTowardsObject(grid: Grid, robot: Robot, objPos: Cell)
    requires grid.Valid()
    modifies robot
    ensures Reachable(grid, old(robot.Position()), objPos) && objPos != old(robot.Position()) ==>
              Passable(grid, robot.Position()) && Adjacent(old(robot.Position()), robot.Position()) &&
              robot.path == old(robot.path) + [robot.Position()] &&
              exists p :: IsShortestPath(grid, old(robot.Position()), objPos, [robot.Position()] + p) &&
                          IsShortestPath(grid, robot.Position(), objPos, p)
    ensures !Reachable(grid, old(robot.Position()), objPos) || objPos == old(robot.Position()) ==>
              robot.row == old(robot.row) && robot.col == old(robot.col) && robot.path == old(robot.path)
  {
    var path := BfsFindPath(grid, (robot.row, robot.col), objPos);
    if path.Some? && path.value != [] {
      var p := path.value;
      ghost var s := robot.Position();
      WalkTail(grid, s, p);
      ShortestSuffix(grid, s, objPos, p);
      assert [p[0]] + p[1..] == p;
      // move_towards_object loops over the path and breaks after the first move
      robot.MoveTo(p[0]);
    } else if path.Some? {
      assert End(robot.Position(), path.value) == robot.Position();
    }
  }
}
