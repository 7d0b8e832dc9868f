/** What the union-find passes of Board::generate_maze establish
    (board.cpp:131-192): a walk through open walls from every cell to every
    other. A join of two cells is only made across a wall that is open at
    that moment, and a ghost walk from every cell to its representative
    (`Witnessed`) records why each join keeps the classes connected. */
module Maze {
  import opened Walls
  import UnionFind

  /** The passage between a cell and its right neighbour: the right wall of
      the left cell, the wall generate_maze tests and clears. */
  predicate RightOpen(cs: seq<Cell>, a: int)
    requires |cs| == Cells
  {
    0 <= a < Cells && a % Width != Width - 1 && !cs[a].right
  }

  /** The passage between a cell and the one below: the down wall of the
      upper cell. */
  predicate DownOpen(cs: seq<Cell>, a: int)
    requires |cs| == Cells
  {
    0 <= a && a + Width < Cells && !cs[a].down
  }

  /** A step from a to a neighbour b through an open wall. */
  predicate Passage(cs: seq<Cell>, a: int, b: int)
    requires |cs| == Cells
  {
    (b == a + 1 && RightOpen(cs, a)) || (a == b + 1 && RightOpen(cs, b))
    || (b == a + Width && DownOpen(cs, a)) || (a == b + Width && DownOpen(cs, b))
  }

  /** A walk of at least one cell, each step through an open wall. */
  ghost predicate Walk(cs: seq<Cell>, p: seq<int>)
    requires |cs| == Cells
  {
    |p| >= 1
    && (forall t :: 0 <= t < |p| ==> 0 <= p[t] < Cells)
    && (forall t :: 0 <= t < |p| - 1 ==> Passage(cs, p[t], p[t + 1]))
  }

  ghost predicate Reaches(cs: seq<Cell>, a: int, b: int)
    requires |cs| == Cells
  {
    exists p :: Walk(cs, p) && p[0] == a && p[|p| - 1] == b
  }

  /** Every cell of the board can be reached from every other. */
  ghost predicate Connected(cs: seq<Cell>)
    requires |cs| == Cells
  {
    forall a, b :: 0 <= a < Cells && 0 <= b < Cells ==> Reaches(cs, a, b)
  }

  function Reverse(p: seq<int>): (q: seq<int>)
    ensures |q| == |p|
    ensures forall t :: 0 <= t < |p| ==> q[t] == p[|p| - 1 - t]
  {
    seq(|p|, t requires 0 <= t < |p| => p[|p| - 1 - t])
  }

  /** The right wall of (row, column) open means a passage both ways. */
  lemma PassageRight(cs: seq<Cell>, row: int, column: int)
    requires |cs| == Cells && InGrid(row, column) && column < Width - 1
    requires !cs[At(row, column)].right
    ensures Passage(cs, At(row, column), At(row, column + 1))
    ensures Passage(cs, At(row, column + 1), At(row, column))
  {
    ColumnOfAt(row, column);
  }

  lemma PassageDown(cs: seq<Cell>, row: int, column: int)
    requires |cs| == Cells && InGrid(row, column) && row < Height - 1
    requires !cs[At(row, column)].down
    ensures Passage(cs, At(row, column), At(row + 1, column))
    ensures Passage(cs, At(row + 1, column), At(row, column))
  {
  }

  lemma ColumnOfAt(row: int, column: int)
    requires InGrid(row, column)
    ensures At(row, column) % Width == column
  {
    assert At(row, column) == row * Width + column;
  }

  /** A walk read backwards is a walk. */
  lemma WalkReverse(cs: seq<Cell>, p: seq<int>)
    requires |cs| == Cells && Walk(cs, p)
    ensures Walk(cs, Reverse(p))
  {
    var q := Reverse(p);
    forall t | 0 <= t < |q| - 1
      ensures Passage(cs, q[t], q[t + 1])
    {
      assert q[t] == p[|p| - 1 - t] && q[t + 1] == p[|p| - 1 - t - 1];
      assert Passage(cs, p[|p| - 1 - t - 1], p[|p| - 1 - t]);
    }
  }

  /** Two walks meeting in a cell make one walk. */
  lemma WalkGlue(cs: seq<Cell>, p: seq<int>, q: seq<int>)
    requires |cs| == Cells && Walk(cs, p) && Walk(cs, q) && p[|p| - 1] == q[0]
    ensures Walk(cs, p + q[1..])
    ensures (p + q[1..])[0] == p[0] && (p + q[1..])[|p| + |q| - 2] == q[|q| - 1]
  {
    var w := p + q[1..];
    forall t | 0 <= t < |w| - 1
      ensures Passage(cs, w[t], w[t + 1])
    {
      if t < |p| - 1 {
        assert w[t] == p[t] && w[t + 1] == p[t + 1];
      } else {
        assert w[t] == q[t - |p| + 1] && w[t + 1] == q[t - |p| + 2];
      }
    }
  }

  /** A walk, one step through an open wall, and another walk make one
      walk. */
  lemma WalkStep(cs: seq<Cell>, p: seq<int>, q: seq<int>)
    requires |cs| == Cells && Walk(cs, p) && Walk(cs, q) && Passage(cs, p[|p| - 1], q[0])
    ensures Walk(cs, p + q)
    ensures (p + q)[0] == p[0] && (p + q)[|p| + |q| - 1] == q[|q| - 1]
  {
    var w := p + q;
    forall t | 0 <= t < |w| - 1
      ensures Passage(cs, w[t], w[t + 1])
    {
      if t < |p| - 1 {
        assert w[t] == p[t] && w[t + 1] == p[t + 1];
      } else if t >= |p| {
        assert w[t] == q[t - |p|] && w[t + 1] == q[t - |p| + 1];
      }
    }
  }

  /** Opening walls keeps every walk a walk. */
  lemma WalkWider(cs: seq<Cell>, cs2: seq<Cell>, p: seq<int>)
    requires |cs| == Cells && |cs2| == Cells && Walk(cs, p) && Grows(cs2, cs)
    ensures Walk(cs2, p)
  {
    forall t | 0 <= t < |p| - 1
      ensures Passage(cs2, p[t], p[t + 1])
    {
      assert Passage(cs, p[t], p[t + 1]);
      assert !Wall(cs[p[t]], Right) ==> !Wall(cs2[p[t]], Right);
      assert !Wall(cs[p[t]], Down) ==> !Wall(cs2[p[t]], Down);
      assert !Wall(cs[p[t + 1]], Right) ==> !Wall(cs2[p[t + 1]], Right);
      assert !Wall(cs[p[t + 1]], Down) ==> !Wall(cs2[p[t + 1]], Down);
    }
  }

  /** paths[k] is a walk from k to its representative classes[k]. */
  ghost predicate Witnessed(cs: seq<Cell>, classes: seq<nat>, paths: seq<seq<int>>)
    requires |cs| == Cells
  {
    |classes| == Cells && |paths| == Cells
    && forall k :: 0 <= k < Cells ==>
      Walk(cs, paths[k]) && paths[k][0] == k && paths[k][|paths[k]| - 1] == classes[k]
  }

  /** Every cell on its own: the one-cell walks. */
  ghost function Singletons(): (paths: seq<seq<int>>)
    ensures |paths| == Cells
  {
    seq(Cells, k requires 0 <= k < Cells => [k])
  }

  lemma SingletonsWitnessed(cs: seq<Cell>, classes: seq<nat>)
    requires |cs| == Cells && |classes| == Cells
    requires forall k :: 0 <= k < Cells ==> classes[k] == k
    ensures Witnessed(cs, classes, Singletons())
  {
    forall k | 0 <= k < Cells
      ensures Walk(cs, Singletons()[k])
    {
      assert Singletons()[k] == [k];
    }
  }

  /** The walks after y.join(x)'s effect on the classes: every cell of
      y's class walks to the old representative of y's class, back along
      y's walk to y, across to x and along x's walk to x's representative. */
  ghost function JoinedPaths(classes: seq<nat>, paths: seq<seq<int>>, x: int, y: int): (r: seq<seq<int>>)
    requires |classes| == Cells && |paths| == Cells && 0 <= x < Cells && 0 <= y < Cells
    requires |paths[y]| >= 1
    ensures |r| == Cells
    ensures forall k :: 0 <= k < Cells && classes[k] != classes[y] ==> r[k] == paths[k]
  {
    seq(Cells, k requires 0 <= k < Cells =>
      if classes[k] == classes[y] then paths[k] + Reverse(paths[y])[1..] + paths[x] else paths[k])
  }

  /** x.join(y) across an open wall between y and x keeps every class
      connected (union-find.hpp:15-20 moves y's class under x's
      representative). */
  lemma JoinWitnessed(cs: seq<Cell>, classes: seq<nat>, paths: seq<seq<int>>, x: int, y: int)
    requires |cs| == Cells && Witnessed(cs, classes, paths)
    requires 0 <= x < Cells && 0 <= y < Cells && Passage(cs, y, x)
    ensures Witnessed(cs, UnionFind.Relabel(classes, classes[y], classes[x]), JoinedPaths(classes, paths, x, y))
  {
    var classes2 := UnionFind.Relabel(classes, classes[y], classes[x]);
    var paths2 := JoinedPaths(classes, paths, x, y);
    forall k | 0 <= k < Cells && classes[k] == classes[y]
      ensures Walk(cs, paths2[k]) && paths2[k][0] == k && paths2[k][|paths2[k]| - 1] == classes[x]
    {
      JoinedWalk(cs, classes, paths, x, y, k);
    }
  }

  /** One cell of y's class: its new walk. */
  lemma JoinedWalk(cs: seq<Cell>, classes: seq<nat>, paths: seq<seq<int>>, x: int, y: int, k: int)
    requires |cs| == Cells && Witnessed(cs, classes, paths)
    requires 0 <= x < Cells && 0 <= y < Cells && Passage(cs, y, x)
    requires 0 <= k < Cells && classes[k] == classes[y]
    ensures var p := paths[k] + Reverse(paths[y])[1..] + paths[x];
      Walk(cs, p) && p[0] == k && p[|p| - 1] == classes[x]
  {
    var back := Reverse(paths[y]);
    WalkReverse(cs, paths[y]);
    WalkGlue(cs, paths[k], back);
    var toY := paths[k] + back[1..];
    assert toY[|toY| - 1] == y;
    WalkStep(cs, toY, paths[x]);
  }

  /** Opening walls keeps the witnesses. */
  lemma WitnessedWider(cs: seq<Cell>, cs2: seq<Cell>, classes: seq<nat>, paths: seq<seq<int>>)
    requires |cs| == Cells && |cs2| == Cells && Witnessed(cs, classes, paths) && Grows(cs2, cs)
    ensures Witnessed(cs2, classes, paths)
  {
    forall k | 0 <= k < Cells
      ensures Walk(cs2, paths[k])
    {
      WalkWider(cs, cs2, paths[k]);
    }
  }

  /** A cell in the same class as its right and lower neighbours. */
  ghost predicate LinkedAt(classes: seq<nat>, row: int, column: int)
    requires |classes| == Cells && InGrid(row, column)
  {
    (column < Width - 1 ==> classes[At(row, column)] == classes[At(row, column + 1)])
    && (row < Height - 1 ==> classes[At(row, column)] == classes[At(row + 1, column)])
  }

  ghost predicate AllLinked(classes: seq<nat>)
    requires |classes| == Cells
  {
    forall r, c :: InGrid(r, c) ==> LinkedAt(classes, r, c)
  }

  /** Classes linked with their neighbours everywhere are a single class:
      down the first column, then along each row. */
  lemma {:induction false} LinkedGrid(classes: seq<nat>, row: int, column: int)
    requires |classes| == Cells && AllLinked(classes) && InGrid(row, column)
    ensures classes[At(row, column)] == classes[At(0, 0)]
    decreases row, column
  {
    if column > 0 {
      LinkedGrid(classes, row, column - 1);
      assert LinkedAt(classes, row, column - 1);
    } else if row > 0 {
      LinkedGrid(classes, row - 1, 0);
      assert LinkedAt(classes, row - 1, 0);
    }
  }

  /** Every equality of `before`'s classes still holds in `after`'s. */
  ghost predicate Coarser(before: seq<nat>, after: seq<nat>) {
    |before| == |after|
    && forall p, q :: 0 <= p < |before| && 0 <= q < |before| && before[p] == before[q] ==> after[p] == after[q]
  }

  lemma CoarserTransitive(a: seq<nat>, b: seq<nat>, c: seq<nat>)
    requires Coarser(a, b) && Coarser(b, c)
    ensures Coarser(a, c)
  {
  }

  lemma RelabelCoarser(reps: seq<nat>, from: nat, to: nat)
    ensures Coarser(reps, UnionFind.Relabel(reps, from, to))
  {
  }

  lemma CoarserAt(before: seq<nat>, after: seq<nat>, p: int, q: int)
    requires Coarser(before, after) && 0 <= p < |before| && 0 <= q < |before| && before[p] == before[q]
    ensures after[p] == after[q]
  {
  }

  lemma LinkedKept(before: seq<nat>, after: seq<nat>, row: int, column: int)
    requires |before| == Cells && Coarser(before, after) && InGrid(row, column)
    requires LinkedAt(before, row, column)
    ensures LinkedAt(after, row, column)
  {
  }

  /** Witnessed single class: every cell reaches every other. */
  lemma AllReach(cs: seq<Cell>, classes: seq<nat>, paths: seq<seq<int>>)
    requires |cs| == Cells && Witnessed(cs, classes, paths) && AllLinked(classes)
    ensures Connected(cs)
  {
    forall a, b | 0 <= a < Cells && 0 <= b < Cells
      ensures Reaches(cs, a, b)
    {
      var ra, ca := CellOf(a);
      var rb, cb := CellOf(b);
      LinkedGrid(classes, ra, ca);
      LinkedGrid(classes, rb, cb);
      var back := Reverse(paths[b]);
      WalkReverse(cs, paths[b]);
      WalkGlue(cs, paths[a], back);
      var w := paths[a] + back[1..];
      assert Walk(cs, w) && w[0] == a && w[|w| - 1] == b;
    }
  }
}
