/**
 * The grid the robot walks on: a rows x cols matrix of cells, each empty,
 * a hurdle or an object, changed in place only when an object is collected.
 */
module GridModel {

  /** A (row, column) coordinate; it may lie outside the grid. */
  type Cell = (int, int)

  const Empty := 0
  const Hurdle := 1
  const Object := 2

  /** The neighbour order the search expands in: right, left, down, up. */
  const Directions: seq<(int, int)> := [(0, 1), (0, -1), (1, 0), (-1, 0)]

  function Step(c: Cell, d: (int, int)): (n: Cell) {
    (c.0 + d.0, c.1 + d.1)
  }

  /** a and b are 4-neighbours: they differ by one in exactly one coordinate. */
  predicate Adjacent(a: Cell, b: Cell) {
    (a.0 == b.0 && (b.1 == a.1 + 1 || b.1 == a.1 - 1)) ||
    (a.1 == b.1 && (b.0 == a.0 + 1 || b.0 == a.0 - 1))
  }

  /** The four directions reach exactly the 4-neighbours of a cell. */
  lemma StepIsAdjacent(c: Cell, k: nat)
    requires k < |Directions|
    ensures Adjacent(c, Step(c, Directions[k]))
  {
  }

  /**
   * The position in Directions of the direction that leads from a to its
   * neighbour b, which fixes the order in which the search expands neighbours.
   */
  function DirectionIndex(a: Cell, b: Cell): (k: nat)
    ensures k < |Directions|
    ensures Adjacent(a, b) ==> b == Step(a, Directions[k])
  {
    if b == (a.0, a.1 + 1) then 0
    else if b == (a.0, a.1 - 1) then 1
    else if b == (a.0 + 1, a.1) then 2
    else 3
  }

  /** Each direction of Directions is found again from the neighbour it leads to. */
  lemma DirectionIndexOfStep(a: Cell, k: nat)
    requires k < |Directions|
    ensures DirectionIndex(a, Step(a, Directions[k])) == k
  {
  }

  class Grid {
    const rows: nat
    const cols: nat
    const cells: array2<int>

    /** The matrix has the grid's dimensions and holds only the three cell states. */
    ghost predicate Valid()
      reads cells
    {
      cells.Length0 == rows && cells.Length1 == cols &&
      forall r, c :: 0 <= r < rows && 0 <= c < cols ==> Empty <= cells[r, c] <= Object
    }

    /** A grid of the given size whose cells are all empty. */
    constructor (rows: nat, cols: nat)
      ensures Valid() && fresh(cells)
      ensures this.rows == rows && this.cols == cols
      ensures forall r, c :: 0 <= r < rows && 0 <= c < cols ==> cells[r, c] == Empty
    {
      this.rows := rows;
      this.cols := cols;
      cells := new int[rows, cols]((_, _) => Empty);
    }
  }

  predicate InBounds(g: Grid, c: Cell) {
    0 <= c.0 < g.rows && 0 <= c.1 < g.cols
  }

  /** A cell a walk may enter: inside the grid and not a hurdle. */
  ghost predicate Passable(g: Grid, c: Cell)
    reads g.cells
    requires g.Valid()
  {
    InBounds(g, c) && g.cells[c.0, c.1] != Hurdle
  }

  ghost predicate IsObject(g: Grid, c: Cell)
    reads g.cells
    requires g.Valid()
  {
    InBounds(g, c) && g.cells[c.0, c.1] == Object
  }

  ghost function InBoundsCells(g: Grid): set<Cell> {
    set r, c | 0 <= r < g.rows && 0 <= c < g.cols :: (r, c)
  }
}
