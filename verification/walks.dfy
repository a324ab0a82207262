/**
 * Walks on the grid: the specification the search is proved against.
 * A walk from s is a list of cells, each a passable 4-neighbour of the one
 * before it (s for the first); like the paths the search returns, it
 * excludes s itself and includes its last cell.
 */
module Walks {
  import opened GridModel

  /** The cell reached after i steps of p from s. */
  function At(s: Cell, p: seq<Cell>, i: nat): (c: Cell)
    requires i <= |p|
  {
    if i == 0 then s else p[i - 1]
  }

  /** Where p from s ends: s itself for the empty walk. */
  function End(s: Cell, p: seq<Cell>): (e: Cell) {
    At(s, p, |p|)
  }

  ghost predicate IsWalk(g: Grid, s: Cell, p: seq<Cell>)
    reads g.cells
    requires g.Valid()
  {
    forall i {:trigger At(s, p, i)} :: 0 <= i < |p| ==> Passable(g, p[i]) && Adjacent(At(s, p, i), p[i])
  }

  ghost predicate Reachable(g: Grid, s: Cell, e: Cell)
    reads g.cells
    requires g.Valid()
  {
    exists p :: IsWalk(g, s, p) && End(s, p) == e
  }

  /** p is a walk from s to e and no walk from s to e has fewer steps. */
  ghost predicate IsShortestPath(g: Grid, s: Cell, e: Cell, p: seq<Cell>)
    reads g.cells
    requires g.Valid()
  {
    IsWalk(g, s, p) && End(s, p) == e &&
    forall q :: IsWalk(g, s, q) && End(s, q) == e ==> |p| <= |q|
  }

  /** Extending a walk by a passable neighbour of its end is a walk to that neighbour. */
  lemma WalkAppend(g: Grid, s: Cell, p: seq<Cell>, c: Cell)
    requires g.Valid() && IsWalk(g, s, p)
    requires Passable(g, c) && Adjacent(End(s, p), c)
    ensures IsWalk(g, s, p + [c]) && End(s, p + [c]) == c
  {
    var r := p + [c];
    forall i | 0 <= i < |r|
      ensures Passable(g, r[i]) && Adjacent(At(s, r, i), r[i])
    {
      if i < |p| {
        assert r[i] == p[i];
        assert At(s, r, i) == At(s, p, i);
      }
    }
  }

  /** Dropping the last step of a non-empty walk leaves a walk, whose end neighbours the dropped cell. */
  lemma WalkPrefix(g: Grid, s: Cell, p: seq<Cell>)
    requires g.Valid() && IsWalk(g, s, p) && |p| > 0
    ensures IsWalk(g, s, p[..|p| - 1])
    ensures Passable(g, End(s, p)) && Adjacent(End(s, p[..|p| - 1]), End(s, p))
  {
    var r := p[..|p| - 1];
    forall i | 0 <= i < |r|
      ensures Passable(g, r[i]) && Adjacent(At(s, r, i), r[i])
    {
      assert r[i] == p[i];
      assert At(s, r, i) == At(s, p, i);
    }
    assert At(s, p, |p| - 1) == End(s, r);
  }

  /** A walk from s that starts with c is c followed by a walk from c. */
  lemma WalkCons(g: Grid, s: Cell, c: Cell, p: seq<Cell>)
    requires g.Valid() && Passable(g, c) && Adjacent(s, c) && IsWalk(g, c, p)
    ensures IsWalk(g, s, [c] + p) && End(s, [c] + p) == End(c, p)
  {
    var r := [c] + p;
    forall i | 0 <= i < |r|
      ensures Passable(g, r[i]) && Adjacent(At(s, r, i), r[i])
    {
      if i > 0 {
        assert r[i] == p[i - 1];
        assert At(s, r, i) == At(c, p, i - 1);
      }
    }
  }

  lemma WalkTail(g: Grid, s: Cell, p: seq<Cell>)
    requires g.Valid() && IsWalk(g, s, p) && |p| > 0
    ensures IsWalk(g, p[0], p[1..]) && End(p[0], p[1..]) == End(s, p)
    ensures Passable(g, p[0]) && Adjacent(s, p[0])
  {
    var r := p[1..];
    forall i | 0 <= i < |r|
      ensures Passable(g, r[i]) && Adjacent(At(p[0], r, i), r[i])
    {
      assert r[i] == p[i + 1];
      assert At(p[0], r, i) == At(s, p, i + 1);
    }
    assert At(s, p, 0) == s;
  }

  /** The first i steps of a walk are a walk to the cell reached after i steps. */
  lemma WalkTake(g: Grid, s: Cell, p: seq<Cell>, i: nat)
    requires g.Valid() && IsWalk(g, s, p) && i <= |p|
    ensures IsWalk(g, s, p[..i]) && End(s, p[..i]) == At(s, p, i)
  {
    var r := p[..i];
    forall k | 0 <= k < |r|
      ensures Passable(g, r[k]) && Adjacent(At(s, r, k), r[k])
    {
      assert r[k] == p[k];
      assert At(s, r, k) == At(s, p, k);
    }
  }

  /** The steps after the first j are a walk from the cell reached after j steps. */
  lemma WalkDrop(g: Grid, s: Cell, p: seq<Cell>, j: nat)
    requires g.Valid() && IsWalk(g, s, p) && j <= |p|
    ensures IsWalk(g, At(s, p, j), p[j..]) && End(At(s, p, j), p[j..]) == End(s, p)
  {
    var r := p[j..];
    var c := At(s, p, j);
    forall k | 0 <= k < |r|
      ensures Passable(g, r[k]) && Adjacent(At(c, r, k), r[k])
    {
      assert r[k] == p[j + k];
      assert At(c, r, k) == At(s, p, j + k);
    }
  }

  /** A walk from s followed by a walk from where it ends is a walk from s. */
  lemma WalkConcat(g: Grid, s: Cell, a: seq<Cell>, b: seq<Cell>)
    requires g.Valid() && IsWalk(g, s, a) && IsWalk(g, End(s, a), b)
    ensures IsWalk(g, s, a + b) && End(s, a + b) == End(End(s, a), b)
  {
    var r := a + b;
    var c := End(s, a);
    forall k | 0 <= k < |r|
      ensures Passable(g, r[k]) && Adjacent(At(s, r, k), r[k])
    {
      if k < |a| {
        assert r[k] == a[k];
        assert At(s, r, k) == At(s, a, k);
      } else {
        assert r[k] == b[k - |a|];
        assert At(s, r, k) == At(c, b, k - |a|);
      }
    }
    if b != [] {
      assert r[|r| - 1] == b[|b| - 1];
    }
  }

  /** Cutting out the loop between two visits to the same cell leaves a shorter walk with the same end. */
  lemma WalkShortcut(g: Grid, s: Cell, p: seq<Cell>, i: nat, j: nat)
    requires g.Valid() && IsWalk(g, s, p)
    requires i < j <= |p| && At(s, p, i) == At(s, p, j)
    ensures IsWalk(g, s, p[..i] + p[j..]) && End(s, p[..i] + p[j..]) == End(s, p)
    ensures |p[..i] + p[j..]| == |p| - (j - i)
  {
    WalkTake(g, s, p, i);
    WalkDrop(g, s, p, j);
    WalkConcat(g, s, p[..i], p[j..]);
  }

  /** The empty walk is the only shortest path from a cell to itself. */
  lemma ShortestToSelf(g: Grid, s: Cell, p: seq<Cell>)
    requires g.Valid() && IsShortestPath(g, s, s, p)
    ensures p == []
  {
    assert IsWalk(g, s, []) && End(s, []) == s;
  }

  /** A shortest path never repeats a cell and never returns to its start. */
  lemma ShortestIsSimple(g: Grid, s: Cell, e: Cell, p: seq<Cell>)
    requires g.Valid() && IsShortestPath(g, s, e, p)
    ensures s !in p
    ensures forall i, j :: 0 <= i < j < |p| ==> p[i] != p[j]
  {
    forall i, j | 0 <= i < j < |p|
      ensures p[i] != p[j]
    {
      if p[i] == p[j] {
        assert At(s, p, i + 1) == At(s, p, j + 1);
        WalkShortcut(g, s, p, i + 1, j + 1);
      }
    }
    if s in p {
      var k :| 0 <= k < |p| && p[k] == s;
      assert At(s, p, 0) == At(s, p, k + 1);
      WalkShortcut(g, s, p, 0, k + 1);
    }
  }

  /**
   * After one step along a shortest path, the rest of it is a shortest path
   * from the new cell: every step brings the walker exactly one step closer.
   */
  lemma ShortestSuffix(g: Grid, s: Cell, e: Cell, p: seq<Cell>)
    requires g.Valid() && IsShortestPath(g, s, e, p) && |p| > 0
    ensures IsShortestPath(g, p[0], e, p[1..])
  {
    WalkTail(g, s, p);
    forall q | IsWalk(g, p[0], q) && End(p[0], q) == e
      ensures |p[1..]| <= |q|
    {
      WalkCons(g, s, p[0], q);
    }
  }

  /** A cell other than s that is outside the grid or a hurdle cannot be reached from s. */
  lemma BlockedIsUnreachable(g: Grid, s: Cell, e: Cell)
    requires g.Valid() && e != s && !Passable(g, e)
    ensures !Reachable(g, s, e)
  {
    forall p | IsWalk(g, s, p)
      ensures End(s, p) != e
    {
      if p != [] {
        assert Adjacent(At(s, p, |p| - 1), p[|p| - 1]);
      }
    }
  }

  /**
   * A set that holds s and every passable neighbour of each of its cells
   * holds the end of every walk from s.
   */
  lemma {:induction false} ClosedHoldsWalkEnd(g: Grid, s: Cell, S: set<Cell>, p: seq<Cell>)
    requires g.Valid() && s in S && IsWalk(g, s, p)
    requires forall v, n :: v in S && Passable(g, n) && Adjacent(v, n) ==> n in S
    ensures End(s, p) in S
    decreases |p|
  {
    if |p| > 0 {
      WalkPrefix(g, s, p);
      ClosedHoldsWalkEnd(g, s, S, p[..|p| - 1]);
    }
  }

  function Abs(x: int): (n: nat) {
    if x < 0 then -x else x
  }

  /** The number of unit steps between two cells when nothing is in the way. */
  function Manhattan(a: Cell, b: Cell): (d: nat) {
    Abs(a.0 - b.0) + Abs(a.1 - b.1)
  }

  /** Each step changes one coordinate by one, so no walk is shorter than the Manhattan distance it covers. */
  lemma {:induction false} WalkAtLeastManhattan(g: Grid, s: Cell, p: seq<Cell>)
    requires g.Valid() && IsWalk(g, s, p)
    ensures Manhattan(s, End(s, p)) <= |p|
    decreases |p|
  {
    if |p| > 0 {
      WalkPrefix(g, s, p);
      WalkAtLeastManhattan(g, s, p[..|p| - 1]);
    }
  }
}
