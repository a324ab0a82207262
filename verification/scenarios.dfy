/**
 * The scenarios of the repository's tests, on the same 6 x 7 grids, with
 * the expected outcomes proved from the contracts of the model.
 */
module Scenarios {
  import opened Wrappers
  import opened GridModel
  import opened Walks
  import opened Search
  import opened Agent

  /** The grid of the hurdle and search tests; hurdleAt02 selects the search test's variant. */
  method HurdleGrid(hurdleAt02: bool) returns (grid: Grid)
    ensures fresh(grid) && fresh(grid.cells) && grid.Valid() && grid.rows == 6 && grid.cols == 7
    ensures forall r, c :: 0 <= r < 6 && 0 <= c < 7 ==>
              grid.cells[r, c] ==
                if (r, c) in {(1, 3), (2, 0), (2, 6), (3, 2), (3, 5), (5, 0), (5, 3)} then Hurdle
                else if hurdleAt02 && (r, c) == (0, 2) then Hurdle
                else if !hurdleAt02 && (r, c) == (0, 1) then Hurdle
                else Empty
  {
    grid := new Grid(6, 7);
    if hurdleAt02 {
      grid.cells[0, 2] := Hurdle;
    } else {
      grid.cells[0, 1] := Hurdle;
    }
    grid.cells[1, 3] := Hurdle;
    grid.cells[2, 0] := Hurdle;
    grid.cells[2, 6] := Hurdle;
    grid.cells[3, 2] := Hurdle;
    grid.cells[3, 5] := Hurdle;
    grid.cells[5, 0] := Hurdle;
    grid.cells[5, 3] := Hurdle;
  }

  /** The five checks of the hurdle test: empty, hurdle, out of bounds, unvisited, visited. */
  method HurdleFreeChecks() returns (results: seq<bool>)
    ensures results == [true, false, false, true, false]
  {
    var grid := HurdleGrid(false);
    var visited: set<Cell> := {};
    results := [
      IsHurdleFree(grid, 0, 0, visited),
      IsHurdleFree(grid, 0, 1, visited),
      IsHurdleFree(grid, -1, 1, visited),
      IsHurdleFree(grid, 5, 6, visited)
    ];
    visited := visited + {(5, 6)};
    results := results + [IsHurdleFree(grid, 5, 6, visited)];
  }

  /**
   * The order of expansion: on an empty 3 x 3 grid the neighbours of the
   * centre are queued right, left, down, up.
   */
  method ExpansionOrder() returns (cells: seq<Cell>)
    ensures cells == [(1, 2), (1, 0), (2, 1), (0, 1)]
  {
    var grid := new Grid(3, 3);
    var added := EnqueueNeighbours(grid, (1, 1), [], {}, []);
    assert added[0..] == added;
    var want := [(1, 2), (1, 0), (2, 1), (0, 1)];
    forall i | 0 <= i < 4
      ensures want[i] in Within(added, 1)
    {
      assert Passable(grid, want[i]) && Adjacent((1, 1), want[i]);
    }
    // each wanted cell sits at a position, and direction order sorts the positions
    var p0 := WithinHas(added, 1, want[0]);
    var p1 := WithinHas(added, 1, want[1]);
    var p2 := WithinHas(added, 1, want[2]);
    var p3 := WithinHas(added, 1, want[3]);
    assert DirectionIndex((1, 1), added[p0].0) == 0 && DirectionIndex((1, 1), added[p1].0) == 1;
    assert DirectionIndex((1, 1), added[p2].0) == 2 && DirectionIndex((1, 1), added[p3].0) == 3;
    assert p0 < p1 < p2 < p3 < 4;
    cells := seq(|added|, i requires 0 <= i < |added| => added[i].0);
  }

  /** The search test, first query: a path from (0, 0) to (1, 6) exists. */
  method SearchPathNoHurdles() returns (found: Option<seq<Cell>>)
    ensures found.Some?
  {
    var grid := HurdleGrid(true);
    var detour := [(0, 1), (1, 1), (1, 2), (2, 2), (2, 3), (2, 4), (1, 4), (1, 5), (1, 6)];
    assert IsWalk(grid, (0, 0), detour) by {
      forall i | 0 <= i < |detour|
        ensures Passable(grid, detour[i]) && Adjacent(At((0, 0), detour, i), detour[i])
      {
        assert i == 0 || i == 1 || i == 2 || i == 3 || i == 4 || i == 5 || i == 6 || i == 7 || i == 8;
      }
    }
    assert End((0, 0), detour) == (1, 6);
    found := BfsFindPath(grid, (0, 0), (1, 6));
  }

  /** The search test, second query: a path from (0, 0) to (5, 6) avoids the hurdles, with the Manhattan length 11. */
  method SearchPathAvoidingHurdles() returns (found: Option<seq<Cell>>)
    ensures found.Some? && |found.value| == 11
  {
    var grid := HurdleGrid(true);
    var around := [(1, 0), (1, 1), (1, 2), (2, 2), (2, 3), (3, 3), (4, 3), (4, 4), (4, 5), (4, 6), (5, 6)];
    assert IsWalk(grid, (0, 0), around) by {
      forall i | 0 <= i < |around|
        ensures Passable(grid, around[i]) && Adjacent(At((0, 0), around, i), around[i])
      {
        assert i == 0 || i == 1 || i == 2 || i == 3 || i == 4 || i == 5 || i == 6 || i == 7 || i == 8 || i == 9 || i == 10;
      }
    }
    assert End((0, 0), around) == (5, 6);
    found := BfsFindPath(grid, (0, 0), (5, 6));
    WalkAtLeastManhattan(grid, (0, 0), found.value);
  }

  /** The search test, third query: the hurdle at (2, 0) cannot be reached. */
  method SearchPathBlocked() returns (found: Option<seq<Cell>>)
    ensures found.None?
  {
    var grid := HurdleGrid(true);
    BlockedIsUnreachable(grid, (0, 0), (2, 0));
    found := BfsFindPath(grid, (0, 0), (2, 0));
  }

  /**
   * On a grid where (0, 2) holds an object reachable through (1, 2), and no
   * cell within two steps of (1, 1) that comes before (0, 2) holds one, the
   * object at (0, 2) is the nearest from (1, 1).
   */
  lemma NearestFromOneOne(grid: Grid)
    requires grid.Valid() && grid.rows == 6 && grid.cols == 7
    requires grid.cells[0, 2] == Object && grid.cells[1, 2] != Hurdle
    requires grid.cells[0, 0] != Object && grid.cells[0, 1] != Object && grid.cells[1, 0] != Object
    requires grid.cells[1, 2] != Object && grid.cells[2, 1] != Object
    ensures IsNearestObject(grid, (1, 1), (0, 2)) && Reachable(grid, (1, 1), (0, 2))
  {
    var s := (1, 1);
    var p := [(1, 2), (0, 2)];
    assert IsWalk(grid, s, p) by {
      assert At(s, p, 0) == s && At(s, p, 1) == (1, 2);
    }
    forall q | IsWalk(grid, s, q) && End(s, q) == (0, 2)
      ensures |p| <= |q|
    {
      WalkAtLeastManhattan(grid, s, q);
    }
    assert IsShortestPath(grid, s, (0, 2), p);
    forall o, q | IsObject(grid, o) && o != s && IsWalk(grid, s, q) && End(s, q) == o
      ensures 2 <= |q| && (RowMajorBefore(o, (0, 2)) ==> 2 < |q|)
    {
      WalkAtLeastManhattan(grid, s, q);
    }
    assert NoCloser(grid, s, (0, 2), |p|);
  }

  /** The grid of the nearest-object test: objects at (0, 2) and (2, 6) among the hurdles. */
  method ObjectGrid() returns (grid: Grid)
    ensures fresh(grid) && fresh(grid.cells) && grid.Valid() && grid.rows == 6 && grid.cols == 7
    ensures forall r, c :: 0 <= r < 6 && 0 <= c < 7 ==>
              grid.cells[r, c] ==
                if (r, c) in {(0, 2), (2, 6)} then Object
                else if (r, c) in {(1, 3), (2, 0), (3, 2), (3, 5), (5, 0), (5, 3)} then Hurdle
                else Empty
  {
    grid := new Grid(6, 7);
    grid.cells[0, 2] := Object;
    grid.cells[1, 3] := Hurdle;
    grid.cells[2, 0] := Hurdle;
    grid.cells[2, 6] := Object;
    grid.cells[3, 2] := Hurdle;
    grid.cells[3, 5] := Hurdle;
    grid.cells[5, 0] := Hurdle;
    grid.cells[5, 3] := Hurdle;
  }

  /** The nearest-object test: from (1, 1) the object at (0, 2) is chosen over the one at (2, 6). */
  method NearestObjectCheck() returns (nearest: Option<Cell>)
    ensures nearest == Some((0, 2))
  {
    var grid := ObjectGrid();
    var robot := new Robot(grid, 1, 1);
    NearestFromOneOne(grid);
    nearest := FindNearestObject(grid, robot);
    assert robot.Position() == (1, 1) && IsObject(grid, (0, 2));
    if nearest.Some? {
      NearestIsUnique(grid, (1, 1), nearest.value, (0, 2));
    }
  }

  /**
   * The collection test: on the object at (0, 2) the robot collects it and
   * the cell becomes empty; at (1, 1), with nothing there, it collects nothing.
   */
  method CollectChecks() returns (first: bool, cleared: bool, second: bool)
    ensures first && cleared && !second
  {
    var grid := new Grid(6, 7);
    grid.cells[0, 2] := Object;
    var robot := new Robot(grid, 1, 1);
    robot.row, robot.col := 0, 2;
    first := CollectObject(grid, robot);
    cleared := grid.cells[0, 2] == Empty;
    robot.row, robot.col := 1, 1;
    second := CollectObject(grid, robot);
  }

  /** Collecting twice on the same cell: the second call always finds nothing. */
  method CollectTwice(grid: Grid, robot: Robot) returns (first: bool, second: bool)
    requires grid.Valid() && InBounds(grid, robot.Position())
    modifies grid.cells
    ensures !second
    ensures first <==> old(grid.cells[robot.row, robot.col]) == Object
  {
    first := CollectObject(grid, robot);
    second := CollectObject(grid, robot);
  }

  /**
   * The movement test: moving to (0, 1) records it, and a step towards the
   * object at (0, 2) lands on it.
   */
  method MoveChecks() returns (moved: Cell, last: Cell, stepped: Cell)
    ensures moved == (0, 1) && last == (0, 1) && stepped == (0, 2)
  {
    var grid := new Grid(6, 7);
    grid.cells[0, 2] := Object;
    grid.cells[5, 0] := Hurdle;
    grid.cells[5, 3] := Hurdle;
    var robot := new Robot(grid, 1, 1);
    robot.MoveTo((0, 1));
    moved, last := robot.Position(), robot.path[|robot.path| - 1];
    assert IsWalk(grid, (0, 1), [(0, 2)]) && End((0, 1), [(0, 2)]) == (0, 2) by {
      assert At((0, 1), [(0, 2)], 0) == (0, 1);
    }
    MoveTowardsObject(grid, robot, (0, 2));
    stepped := robot.Position();
    ghost var p :| IsShortestPath(grid, (0, 1), (0, 2), [stepped] + p) && IsShortestPath(grid, stepped, (0, 2), p);
    // the one-step walk bounds the shortest one, so nothing follows the first step
    assert |[stepped] + p| <= |[(0, 2)]|;
    assert p == [];
  }
}
