/**
 * Breadth-first search for a shortest hurdle-free path between two cells,
 * proved against the walk specification in module Walks.
 */
module Search {
  import opened Wrappers
  import opened GridModel
  import opened Walks

  /** A queue entry: a cell and the path by which it was reached. */
  type Entry = (Cell, seq<Cell>)

  /** The candidate cell is inside the grid, not a hurdle and not yet visited. */
  function IsHurdleFree(grid: Grid, row: int, col: int, visited: set<Cell>): (free: bool)
    reads grid.cells
    requires grid.Valid()
    ensures free <==> Passable(grid, (row, col)) && (row, col) !in visited
  {
    if 0 <= row < grid.rows && 0 <= col < grid.cols then
      grid.cells[row, col] != Hurdle && (row, col) !in visited
    else
      false
  }

  /** The cells queued with a path of at most b steps. */
  ghost function Within(queue: seq<Entry>, b: int): set<Cell> {
    if queue == [] then {}
    else (if |queue[0].1| <= b then {queue[0].0} else {}) + Within(queue[1..], b)
  }

  lemma {:induction false} WithinAppend(queue: seq<Entry>, e: Entry, b: int)
    ensures Within(queue + [e], b) == Within(queue, b) + (if |e.1| <= b then {e.0} else {})
    decreases |queue|
  {
    if queue != [] {
      assert (queue + [e])[1..] == queue[1..] + [e];
      WithinAppend(queue[1..], e, b);
    }
  }

  lemma {:induction false} WithinNone(queue: seq<Entry>, b: int)
    requires forall k :: 0 <= k < |queue| ==> |queue[k].1| > b
    ensures Within(queue, b) == {}
    decreases |queue|
  {
    if queue != [] {
      WithinNone(queue[1..], b);
    }
  }

  lemma {:induction false} WithinMono(queue: seq<Entry>, b: int, b': int)
    requires b <= b'
    ensures Within(queue, b) <= Within(queue, b')
    decreases |queue|
  {
    if queue != [] {
      WithinMono(queue[1..], b, b');
    }
  }

  /**
   * The queue discipline of breadth-first search: every queued path is a walk
   * from start to its cell inside the universe, the path lengths are level or
   * level + 1, and they never decrease from front to back.
   */
  ghost predicate QueueOk(grid: Grid, start: Cell, queue: seq<Entry>, level: nat, universe: set<Cell>)
    reads grid.cells
    requires grid.Valid()
  {
    (forall k :: 0 <= k < |queue| ==>
       IsWalk(grid, start, queue[k].1) && End(start, queue[k].1) == queue[k].0 &&
       level <= |queue[k].1| <= level + 1 && queue[k].0 in universe) &&
    (forall k, m :: 0 <= k < m < |queue| ==> |queue[k].1| <= |queue[m].1|)
  }

  /** Every passable neighbour of a cell in S is visited or queued with a path of at most b steps. */
  ghost predicate Closed(grid: Grid, S: set<Cell>, visited: set<Cell>, queue: seq<Entry>, b: int)
    reads grid.cells
    requires grid.Valid()
  {
    forall v, n :: v in S && Passable(grid, n) && Adjacent(v, n) ==>
      n in visited || n in Within(queue, b)
  }

  /** Every walk from start with fewer than level steps ends in S. */
  ghost predicate Settled(grid: Grid, start: Cell, S: set<Cell>, level: nat)
    reads grid.cells
    requires grid.Valid()
  {
    forall q :: IsWalk(grid, start, q) && |q| < level ==> End(start, q) in S
  }

  /**
   * When the front of the queue is one step longer than the paths dequeued so
   * far, every cell reachable in at most `level` steps has been visited: the
   * search moves to the next level, and the visited cells become settled.
   */
  lemma LevelUp(grid: Grid, start: Cell, queue: seq<Entry>, visited: set<Cell>, inner: set<Cell>, level: nat)
    requires grid.Valid()
    requires queue != [] && |queue[0].1| == level + 1
    requires forall k, m :: 0 <= k < m < |queue| ==> |queue[k].1| <= |queue[m].1|
    requires visited == {} ==> queue == [(start, [])]
    requires visited != {} ==> start in visited
    requires inner <= visited && Closed(grid, inner, visited, queue, level)
    requires Settled(grid, start, inner, level)
    ensures Settled(grid, start, visited, level + 1)
  {
    forall k | 0 <= k < |queue|
      ensures |queue[k].1| > level
    {
      if k > 0 { assert |queue[0].1| <= |queue[k].1|; }
    }
    WithinNone(queue, level);
    forall q | IsWalk(grid, start, q) && |q| < level + 1
      ensures End(start, q) in visited
    {
      if |q| == 0 {
        assert queue[0] != (start, []);
      } else if |q| == level {
        WalkPrefix(grid, start, q);
        var u := End(start, q[..level - 1]);
        assert u in inner && Passable(grid, End(start, q)) && Adjacent(u, End(start, q));
        assert End(start, q) !in Within(queue, level);
      } else {
        assert End(start, q) in inner;
      }
    }
  }

  lemma QueuePop(grid: Grid, start: Cell, queue: seq<Entry>, level: nat, universe: set<Cell>, level': nat)
    requires grid.Valid() && queue != [] && QueueOk(grid, start, queue, level, universe)
    requires level' == |queue[0].1|
    ensures QueueOk(grid, start, queue[1..], level', universe)
  {
    var rest := queue[1..];
    forall k | 0 <= k < |rest|
      ensures level' <= |rest[k].1|
    {
      assert rest[k] == queue[k + 1];
    }
  }

  /** Dequeueing the front keeps closure once the front's cell counts as visited. */
  lemma ClosedPop(grid: Grid, S: set<Cell>, visited: set<Cell>, queue: seq<Entry>, b: int)
    requires grid.Valid() && queue != []
    requires Closed(grid, S, visited, queue, b)
    ensures Closed(grid, S, visited + {queue[0].0}, queue[1..], b)
  {
  }

  lemma ClosedWiden(grid: Grid, S: set<Cell>, visited: set<Cell>, queue: seq<Entry>, b: int, b': int)
    requires grid.Valid() && b <= b'
    requires Closed(grid, S, visited, queue, b)
    ensures Closed(grid, S, visited, queue, b')
  {
    WithinMono(queue, b, b');
  }

  lemma {:induction false} WithinConcat(a: seq<Entry>, c: seq<Entry>, b: int)
    ensures Within(a + c, b) == Within(a, b) + Within(c, b)
    decreases |a|
  {
    if a != [] {
      assert (a + c)[1..] == a[1..] + c;
      WithinConcat(a[1..], c, b);
    } else {
      assert a + c == c;
    }
  }

  /** The first k neighbours of c that are passable and unvisited are queued with at most b steps. */
  ghost predicate Expanded(grid: Grid, c: Cell, k: nat, visited: set<Cell>, queue: seq<Entry>, b: int)
    reads grid.cells
    requires grid.Valid() && k <= |Directions|
  {
    forall j :: 0 <= j < k && Passable(grid, Step(c, Directions[j])) && Step(c, Directions[j]) !in visited ==>
      Step(c, Directions[j]) in Within(queue, b)
  }

  /** What the expansion of one cell appends: its passable, unvisited neighbours, each with the path extended by it. */
  ghost predicate Extends(grid: Grid, current: Cell, path: seq<Cell>, visited: set<Cell>, added: seq<Entry>)
    reads grid.cells
    requires grid.Valid()
  {
    forall k :: 0 <= k < |added| ==>
      added[k].1 == path + [added[k].0] && Passable(grid, added[k].0) &&
      Adjacent(current, added[k].0) && added[k].0 !in visited
  }

  /** Every passable, unvisited neighbour of current is queued in added with at most b steps. */
  ghost predicate Covers(grid: Grid, current: Cell, visited: set<Cell>, added: seq<Entry>, b: int)
    reads grid.cells
    requires grid.Valid()
  {
    forall n :: Passable(grid, n) && Adjacent(current, n) && n !in visited ==> n in Within(added, b)
  }

  /**
   * The cells of added follow the order of Directions as seen from current,
   * each direction at most once.
   */
  predicate InDirectionOrder(current: Cell, added: seq<Entry>) {
    forall k, m :: 0 <= k < m < |added| ==> DirectionIndex(current, added[k].0) < DirectionIndex(current, added[m].0)
  }

  /** Every cell of added lies in a direction that comes before the k-th. */
  predicate DirectionsBelow(current: Cell, added: seq<Entry>, k: nat) {
    forall m :: 0 <= m < |added| ==> DirectionIndex(current, added[m].0) < k
  }

  /** Appending the neighbour in the k-th direction after those before it keeps the order. */
  lemma {:induction false} OrderAppend(current: Cell, added: seq<Entry>, e: Entry, k: nat)
    requires InDirectionOrder(current, added) && DirectionsBelow(current, added, k)
    requires DirectionIndex(current, e.0) == k
    ensures InDirectionOrder(current, added + [e]) && DirectionsBelow(current, added + [e], k + 1)
  {
    var added' := added + [e];
    forall i, j | 0 <= i < j < |added'|
      ensures DirectionIndex(current, added'[i].0) < DirectionIndex(current, added'[j].0)
    {
      if j < |added| {
        assert added'[i] == added[i] && added'[j] == added[j];
      } else {
        assert added'[i] == added[i];
      }
    }
    forall m | 0 <= m < |added'|
      ensures DirectionIndex(current, added'[m].0) < k + 1
    {
      if m < |added| {
        assert added'[m] == added[m];
      }
    }
  }

  /** In direction order, the m-th cell lies at least m directions along. */
  lemma {:induction false} IndexAtLeastPosition(current: Cell, added: seq<Entry>, m: nat)
    requires InDirectionOrder(current, added) && m < |added|
    ensures m <= DirectionIndex(current, added[m].0)
    decreases m
  {
    if m > 0 {
      IndexAtLeastPosition(current, added, m - 1);
    }
  }

  /** An expansion in direction order appends at most one entry per direction. */
  lemma OrderBoundsLength(current: Cell, added: seq<Entry>)
    requires InDirectionOrder(current, added)
    ensures |added| <= |Directions|
  {
    if |added| > 0 {
      IndexAtLeastPosition(current, added, |added| - 1);
    }
  }

  /** A cell queued within b steps sits at some position of the queue. */
  lemma {:induction false} WithinHas(queue: seq<Entry>, b: int, c: Cell) returns (i: nat)
    requires c in Within(queue, b)
    ensures i < |queue| && queue[i].0 == c && |queue[i].1| <= b
    decreases |queue|
  {
    if |queue[0].1| <= b && queue[0].0 == c {
      i := 0;
    } else {
      var j := WithinHas(queue[1..], b, c);
      i := j + 1;
    }
  }

  /**
   * The loop over the four directions in the search: each in-bounds, passable,
   * unvisited neighbour of current is appended to the queue with its path.
   */
  method EnqueueNeighbours(grid: Grid, current: Cell, path: seq<Cell>, visited: set<Cell>, queue: seq<Entry>)
    returns (queue': seq<Entry>)
    requires grid.Valid()
    ensures |queue| <= |queue'| && queue'[..|queue|] == queue
    ensures Extends(grid, current, path, visited, queue'[|queue|..])
    ensures Covers(grid, current, visited, queue'[|queue|..], |path| + 1)
    ensures InDirectionOrder(current, queue'[|queue|..])
    ensures |queue'| <= |queue| + |Directions|
  {
    var added: seq<Entry> := [];
    for k := 0 to |Directions|
      invariant Extends(grid, current, path, visited, added)
      invariant InDirectionOrder(current, added)
      invariant DirectionsBelow(current, added, k)
      invariant Expanded(grid, current, k, visited, added, |path| + 1)
    {
      var direction := Directions[k];
      var newRow, newCol := current.0 + direction.0, current.1 + direction.1;
      assert (newRow, newCol) == Step(current, direction);
      if IsHurdleFree(grid, newRow, newCol, visited) {
        var next := (newRow, newCol);
        StepIsAdjacent(current, k);
        DirectionIndexOfStep(current, k);
        OrderAppend(current, added, (next, path + [next]), k);
        WithinAppend(added, (next, path + [next]), |path| + 1);
        added := added + [(next, path + [next])];
      }
    }
    forall n | Passable(grid, n) && Adjacent(current, n) && n !in visited
      ensures n in Within(added, |path| + 1)
    {
      var k := DirectionIndex(current, n);
    }
    OrderBoundsLength(current, added);
    queue' := queue + added;
    assert queue'[|queue|..] == added;
  }

  /**
   * The invariant of the search loop. `visited` are the cells dequeued and
   * marked, `closed` those of them whose neighbours have been expanded (all of
   * them except, briefly, the cell just dequeued), `level` the length of the
   * last path dequeued and `inner` the cells visited before that level began.
   */
  ghost predicate SearchInv(grid: Grid, start: Cell, queue: seq<Entry>, visited: set<Cell>, closed: set<Cell>,
                            inner: set<Cell>, level: nat, universe: set<Cell>)
    reads grid.cells
    requires grid.Valid()
  {
    QueueOk(grid, start, queue, level, universe) &&
    inner <= closed <= visited <= universe &&
    (visited == {} ==> queue == [(start, [])]) &&
    (visited != {} ==> start in visited) &&
    Closed(grid, inner, visited, queue, level) &&
    Closed(grid, closed, visited, queue, level + 1) &&
    Settled(grid, start, inner, level)
  }

  lemma SearchInit(grid: Grid, start: Cell, universe: set<Cell>)
    requires grid.Valid() && start in universe
    ensures SearchInv(grid, start, [(start, [])], {}, {}, {}, 0, universe)
  {
  }

  /**
   * The level follows the front of the queue: when the front's path is one
   * step longer than the level, the search moves to the next level and the
   * visited cells become settled.
   */
  lemma AdvanceLevel(grid: Grid, start: Cell, queue: seq<Entry>, visited: set<Cell>, inner: set<Cell>,
                     level: nat, universe: set<Cell>) returns (inner': set<Cell>, level': nat)
    requires grid.Valid() && queue != []
    requires SearchInv(grid, start, queue, visited, visited, inner, level, universe)
    ensures level' == |queue[0].1|
    ensures level' == level ==> inner' == inner
    ensures level' != level ==> inner' == visited
    ensures SearchInv(grid, start, queue, visited, visited, inner', level', universe)
  {
    inner', level' := inner, level;
    if |queue[0].1| > level {
      LevelUp(grid, start, queue, visited, inner, level);
      ClosedWiden(grid, visited, visited, queue, level + 1, level + 2);
      inner', level' := visited, level + 1;
      forall k | 0 <= k < |queue|
        ensures level' <= |queue[k].1|
      {
        if k > 0 { assert |queue[0].1| <= |queue[k].1|; }
      }
    }
  }

  /**
   * Dequeueing the front at its own level: its path is a walk to its cell,
   * and the invariant holds with the cell marked but not yet expanded.
   */
  lemma Pop(grid: Grid, start: Cell, queue: seq<Entry>, visited: set<Cell>, inner: set<Cell>,
            level: nat, universe: set<Cell>)
    requires grid.Valid() && queue != [] && |queue[0].1| == level
    requires SearchInv(grid, start, queue, visited, visited, inner, level, universe)
    ensures queue[0].0 in universe
    ensures IsWalk(grid, start, queue[0].1) && End(start, queue[0].1) == queue[0].0
    ensures start !in visited ==> queue[0] == (start, [])
    ensures SearchInv(grid, start, queue[1..], visited + {queue[0].0}, visited, inner, level, universe)
  {
    QueuePop(grid, start, queue, level, universe, level);
    ClosedPop(grid, inner, visited, queue, level);
    ClosedPop(grid, visited, visited, queue, level + 1);
  }

  /**
   * Dequeueing the front: its path is a walk to its cell, its length becomes
   * the level, and the invariant holds with the cell marked but not yet expanded.
   */
  lemma Dequeue(grid: Grid, start: Cell, queue: seq<Entry>, visited: set<Cell>, inner: set<Cell>,
                level: nat, universe: set<Cell>) returns (inner': set<Cell>, level': nat)
    requires grid.Valid() && queue != []
    requires SearchInv(grid, start, queue, visited, visited, inner, level, universe)
    ensures level' == |queue[0].1| && queue[0].0 in universe
    ensures IsWalk(grid, start, queue[0].1) && End(start, queue[0].1) == queue[0].0
    ensures start !in visited ==> queue[0] == (start, [])
    ensures SearchInv(grid, start, queue[1..], visited + {queue[0].0}, visited, inner', level', universe)
  {
    inner', level' := AdvanceLevel(grid, start, queue, visited, inner, level, universe);
    Pop(grid, start, queue, visited, inner', level', universe);
  }

  /**
   * Expanding the cell just dequeued keeps the queue discipline and closes
   * that cell.
   */
  lemma Expand(grid: Grid, start: Cell, current: Cell, path: seq<Cell>, visited: set<Cell>, closed: set<Cell>,
               queue: seq<Entry>, queue': seq<Entry>, inner: set<Cell>, level: nat, universe: set<Cell>)
    requires grid.Valid() && InBoundsCells(grid) <= universe
    requires IsWalk(grid, start, path) && End(start, path) == current && |path| == level
    requires SearchInv(grid, start, queue, visited, closed, inner, level, universe)
    requires visited == closed + {current}
    requires |queue| <= |queue'| && queue'[..|queue|] == queue
    requires Extends(grid, current, path, visited, queue'[|queue|..])
    requires Covers(grid, current, visited, queue'[|queue|..], |path| + 1)
    ensures SearchInv(grid, start, queue', visited, visited, inner, level, universe)
  {
    var added := queue'[|queue|..];
    assert queue' == queue + added;
    WithinConcat(queue, added, level);
    WithinConcat(queue, added, level + 1);
    forall k | 0 <= k < |queue'|
      ensures IsWalk(grid, start, queue'[k].1) && End(start, queue'[k].1) == queue'[k].0 &&
              level <= |queue'[k].1| <= level + 1 && queue'[k].0 in universe
    {
      if k < |queue| {
        assert queue'[k] == queue[k];
      } else {
        var e := added[k - |queue|];
        assert queue'[k] == e;
        WalkAppend(grid, start, path, e.0);
        assert e.0 in InBoundsCells(grid);
      }
    }
    forall k, m | 0 <= k < m < |queue'|
      ensures |queue'[k].1| <= |queue'[m].1|
    {
      if m < |queue| {
        assert queue'[k] == queue[k] && queue'[m] == queue[m];
      } else if k < |queue| {
        assert queue'[k] == queue[k] && queue'[m] == added[m - |queue|];
      } else {
        assert queue'[k] == added[k - |queue|] && queue'[m] == added[m - |queue|];
      }
    }
  }

  /** Reaching the end cell: every shorter walk ends in a cell visited before, so the path is shortest. */
  lemma Found(grid: Grid, start: Cell, end: Cell, path: seq<Cell>, queue: seq<Entry>, visited: set<Cell>,
              inner: set<Cell>, level: nat, universe: set<Cell>)
    requires grid.Valid() && end !in visited
    requires IsWalk(grid, start, path) && End(start, path) == end && |path| == level
    requires SearchInv(grid, start, queue, visited + {end}, visited, inner, level, universe)
    ensures IsShortestPath(grid, start, end, path)
  {
  }

  /** An empty queue: the visited cells are closed under passable neighbours, so end is unreachable. */
  lemma Exhausted(grid: Grid, start: Cell, end: Cell, visited: set<Cell>, inner: set<Cell>, level: nat,
                  universe: set<Cell>)
    requires grid.Valid() && end !in visited
    requires SearchInv(grid, start, [], visited, visited, inner, level, universe)
    ensures !Reachable(grid, start, end)
  {
    forall q | IsWalk(grid, start, q)
      ensures End(start, q) != end
    {
      ClosedHoldsWalkEnd(grid, start, visited, q);
    }
  }

  /**
   * The search of bfs_find_path: a FIFO queue of (cell, path) pairs and a set of
   * visited cells, marked when dequeued and consulted when enqueueing; the
   * neighbours are expanded in the order of Directions.
   */
  method BfsFindPath(grid: Grid, start: Cell, end: Cell) returns (result: Option<seq<Cell>>)
    requires grid.Valid()
    ensures result.Some? ==> IsShortestPath(grid, start, end, result.value)
    ensures result.None? <==> !Reachable(grid, start, end)
    ensures start == end ==> result == Some([])
  {
    var queue: seq<Entry> := [(start, [])];
    var visited: set<Cell> := {};
    ghost var inner: set<Cell> := {};
    ghost var level: nat := 0;
    ghost var universe := InBoundsCells(grid) + {start};
    SearchInit(grid, start, universe);

    while queue != []
      invariant SearchInv(grid, start, queue, visited, visited, inner, level, universe)
      invariant end !in visited
      decreases |universe - visited|, |queue|
    {
      var current, path := queue[0].0, queue[0].1;
      inner, level := Dequeue(grid, start, queue, visited, inner, level, universe);
      queue := queue[1..];
      if current in visited {
        assert visited + {current} == visited;
        continue;
      }
      assert universe - visited == (universe - (visited + {current})) + {current};
      ghost var closed := visited;
      visited := visited + {current};
      if current == end {
        Found(grid, start, end, path, queue, closed, inner, level, universe);
        return Some(path);
      }
      var queue' := EnqueueNeighbours(grid, current, path, visited, queue);
      Expand(grid, start, current, path, visited, closed, queue, queue', inner, level, universe);
      queue := queue';
    }
    Exhausted(grid, start, end, visited, inner, level, universe);
    return None;
  }
}
