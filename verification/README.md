# Utility-based robot on a grid, in Dafny

This project models the algorithmic core of `UtilityBasedRobot.py`, where a
robot walks on a grid of cells. Each cell is empty (0), a hurdle (1) or an
object (2). On each tick the robot:

- picks the nearest object it can reach;
- moves one cell along a shortest hurdle-free path towards it;
- collects the object when it stands on it.

The model has the same structure as the Python code:

- `GridModel` (grid.dfy): the `Grid` class. Its matrix of cells is an
  `array2<int>` that is changed in place. The module also holds the three cell
  states, the four neighbour directions in the order `bfs_find_path` expands them
  (right, left, down, up), and adjacency.
- `Walks` (walks.dfy): the specification the search is proved against.
  - A walk from `s` is a list of passable cells, each a 4-neighbour of the one
    before it. Like the paths of `bfs_find_path`, it excludes `s` and includes its last
    cell.
  - It defines reachability and shortest paths, with lemmas about them:
    prefixes, suffixes, shortcuts, simplicity, and the Manhattan lower bound.
- `Search` (search.dfy):
  - `IsHurdleFree`.
  - `BfsFindPath`, a breadth-first search. Its queue is a `seq` of
    (cell, path) pairs, and it grows a visited set that is marked on dequeue
    and consulted on enqueue.
  - `EnqueueNeighbours`, the loop over the four directions.
  - The lemmas that carry the loop invariant through one dequeue and one
    expansion.
- `Agent` (agent.dfy):
  - The `Robot` class: position fields and a history `seq`.
  - `FindNearestObject`, the row-major scan with its running minimum.
  - `CollectObject`, which writes the grid in place.
  - `MoveTowardsObject`.
- `Scenarios` (scenarios.dfy): the repository's test cases on the same 6 x 7
  grids, each with its expected outcome proved from the contracts.

Four choices differ from the Python:

- Python's `None` results become `Option` values.
- The `float('inf')` sentinel of `find_nearest_object` becomes `None` of an
  `Option<nat>`.
- The random placement of the robot becomes constructor parameters. The
  constructor's preconditions are the interior, non-hurdle placement the
  random draw guarantees.
- In `move_towards_object`, the code loops over the path but breaks after
  the first move. The model makes that single move directly.

Two details of the code shape the model:

- The neighbour order is right, left, down, up (UtilityBasedRobot.py:79).
- `find_nearest_object` returns nothing when the only reachable object is
  under the robot, because its empty path counts as false
  (UtilityBasedRobot.py:113).

## Model

| member | source | states |
|---|---|---|
| GridModel.Grid.constructor | UtilityBasedRobot.py:23-26 | a rows x cols grid whose every cell is empty and which satisfies the three-state invariant |
| Search.IsHurdleFree | UtilityBasedRobot.py:68-75 | true exactly when the cell is inside the grid, is not a hurdle and has not been visited |
| Search.BfsFindPath | UtilityBasedRobot.py:78-102 | a returned path is a walk from start to end that no other walk beats in length; nothing is returned exactly when end is unreachable; start == end gives the empty path |
| Search.EnqueueNeighbours | UtilityBasedRobot.py:79-100 | keeps the queue as a prefix; appends only passable, unvisited 4-neighbours of the current cell, each with the current path extended by it; appends every such neighbour; appends them in the order right, left, down, up, each at most once, so at most four entries |
| Search.OrderBoundsLength | UtilityBasedRobot.py:79-100 | entries in strict direction order number at most four, one per direction |
| Search.Dequeue | UtilityBasedRobot.py:83-89 | the dequeued path is a walk to its cell; the search invariant holds once the cell is marked visited; the start is unvisited only while its own entry is the sole one |
| Search.AdvanceLevel | UtilityBasedRobot.py:83-84 | the level follows the length of the front path and the search invariant is kept; on a change of level the settled cells become exactly the visited ones, otherwise they stay as they were |
| Search.LevelUp | UtilityBasedRobot.py:80-100 | with the queue sorted by path length, a front one step longer than the current level means every walk up to that level ends in a visited cell |
| Search.Expand | UtilityBasedRobot.py:95-100 | expanding the just-visited cell keeps every queued path a walk to its cell of the current or the next length, in sorted order, and closes that cell |
| Search.Found | UtilityBasedRobot.py:91-93 | when the dequeued cell is the end, its path is a shortest walk from start |
| Search.Exhausted | UtilityBasedRobot.py:83-102 | once the queue is empty, the visited cells hold the end of every walk from start, so an unvisited end is unreachable |
| Walks.ShortestIsSimple | UtilityBasedRobot.py:86-100 | a shortest path never repeats a cell and never returns to the start |
| Walks.ShortestToSelf | UtilityBasedRobot.py:80-93 | the only shortest path from a cell to itself is the empty one |
| Walks.ShortestSuffix | UtilityBasedRobot.py:127-132 | after one step along a shortest path, the rest of the path is a shortest path from the new cell |
| Walks.BlockedIsUnreachable | UtilityBasedRobot.py:99 | a cell other than the start that is outside the grid or a hurdle is unreachable |
| Walks.ClosedHoldsWalkEnd | UtilityBasedRobot.py:83-102 | a set holding the start and closed under passable neighbours holds the end of every walk |
| Agent.Robot.constructor | UtilityBasedRobot.py:49-56 | a robot on the given interior, non-hurdle cell, not at the border, with that cell as its whole history |
| Agent.Robot.MoveTo | UtilityBasedRobot.py:58-60 | the position becomes the given cell, which is appended as the newest history entry |
| Agent.Robot.AtBorder | UtilityBasedRobot.py:180 | for a robot inside its grid, being in the outermost row or column is the same as not standing in the interior |
| Agent.FindNearestObject | UtilityBasedRobot.py:105-117 | no result means no object other than the robot's cell is reachable; a result is an object other than the robot's cell, with a shortest path no longer than the path to any other object, and strictly shorter than the path to every object before it in row-major order |
| Agent.NearestIsUnique | UtilityBasedRobot.py:111-115 | at most one cell meets that description, so the scan's result is determined |
| Agent.ScanCell | UtilityBasedRobot.py:111-115 | searching one cell keeps the scan invariant one cell further: the candidate stays the nearest object among the scanned cells |
| Agent.ScanStep | UtilityBasedRobot.py:111-115 | one scanned cell keeps the scan invariant: a strictly shorter non-empty path replaces the candidate, and anything else leaves it |
| Agent.ScanDone | UtilityBasedRobot.py:109-117 | after the last row, the scan invariant is the postcondition of the scan |
| Agent.CollectObject | UtilityBasedRobot.py:120-124 | returns true exactly when the robot's cell held an object; that cell becomes empty; no other cell changes, and nothing changes at all when it returns false |
| Agent.MoveTowardsObject | UtilityBasedRobot.py:127-132 | when the object is reachable and not under the robot, the robot moves to a passable 4-neighbour that starts a shortest path and is one step closer, and the history grows by that cell; otherwise position and history are unchanged |
| Scenarios.HurdleFreeChecks | test_UtilityBasedRobot.py:8-30 | the five checks give empty true, hurdle false, out of bounds false, unvisited true and visited false |
| Scenarios.ExpansionOrder | UtilityBasedRobot.py:79-100 | on an empty 3 x 3 grid the neighbours of the centre are queued exactly as (1, 2), (1, 0), (2, 1), (0, 1) |
| Scenarios.SearchPathNoHurdles | test_UtilityBasedRobot.py:40-53 | a path from (0, 0) to (1, 6) is found |
| Scenarios.SearchPathAvoidingHurdles | test_UtilityBasedRobot.py:40-54 | a path from (0, 0) to (5, 6) is found, of length 11 |
| Scenarios.SearchPathBlocked | test_UtilityBasedRobot.py:40-55 | no path to the hurdle at (2, 0) |
| Scenarios.NearestFromOneOne | test_UtilityBasedRobot.py:65-81 | on the test grid, (0, 2) is the nearest object from (1, 1) and is reachable |
| Scenarios.NearestObjectCheck | test_UtilityBasedRobot.py:65-84 | the scan from (1, 1) returns (0, 2) |
| Scenarios.CollectChecks | test_UtilityBasedRobot.py:86-111 | collecting at (0, 2) succeeds and empties the cell; collecting at (1, 1) fails |
| Scenarios.CollectTwice | UtilityBasedRobot.py:120-124 | a second collection on the same cell always returns false |
| Scenarios.MoveChecks | test_UtilityBasedRobot.py:113-139 | moving to (0, 1) sets the position and the last history entry; one step towards (0, 2) lands on it |

## Left out

- Rendering is not modelled: `Grid.draw`, `Robot.draw`, the colours, the cell size and the window. They are presentation through pygame.
- `main` (UtilityBasedRobot.py:135-193) is not modelled. It holds the episode loop, event polling, sleeping, frame timing and printing, which are I/O and timing. Only its border test is kept, as `Robot.AtBorder`.
- `Grid.randomize` and the random re-draw loop in the `Robot` constructor are not modelled, because they depend on random draws. The constructor takes the position instead.
- The module constants `ROWS`, `COLS` and `CELL_SIZE` are not modelled. The grid size is a constructor parameter.
- BfsFindPath: the contract fixes the length of the returned path but not which of several shortest paths is returned. That choice follows from the neighbour order, which `EnqueueNeighbours` states for one expansion but which is not carried through the whole search.
- Agent.CollectObject: requires the robot's cell to be inside the grid. Python would raise an error for indices past the end, and would wrap around for negative ones. Neither happens for a robot that only moves along paths.
- Agent.Robot.constructor: the grid is not required to leave room for an interior cell. The preconditions make a grid without one unusable, just as the random draw in the `Robot` constructor would fail on it.
- The test file's global counters and printing are not modelled. The test cases themselves are the methods of `Scenarios`.
