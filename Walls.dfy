/** The cells of the maze (src/cell.hpp) and the wall writes of
    Board::generate_maze: every write there sets one wall of a cell and,
    when the cell across that wall is on the board, the facing wall of
    that neighbour. */
module Walls {
  const Height: nat := 10
  const Width: nat := 12
  const Cells: nat := 120
  const LastRow: int := Height - 1
  const LastColumn: int := Width - 1

  /** A cell's walls: the bit fields of cell.hpp (up is bit 0, right bit 1,
      down bit 2, left bit 3). */
  datatype Cell = Cell(up: bool, right: bool, down: bool, left: bool)

  const NoWalls := Cell(false, false, false, false)

  /** The `walls` nibble of a cell, read back into the four bit fields. */
  function FromNibble(n: nat): (c: Cell)
    requires n < 16
  {
    Cell(n % 2 == 1, n / 2 % 2 == 1, n / 4 % 2 == 1, n / 8 == 1)
  }

  datatype Direction = Up | Right | Down | Left

  function Wall(c: Cell, d: Direction): bool {
    match d
    case Up => c.up
    case Right => c.right
    case Down => c.down
    case Left => c.left
  }

  function WithWall(c: Cell, d: Direction, v: bool): (c2: Cell)
    ensures Wall(c2, d) == v
    ensures forall e :: e != d ==> Wall(c2, e) == Wall(c, e)
  {
    match d
    case Up => c.(up := v)
    case Right => c.(right := v)
    case Down => c.(down := v)
    case Left => c.(left := v)
  }

  /** The wall the neighbour across d sees. */
  function Opposite(d: Direction): (e: Direction)
    ensures e != d
  {
    match d
    case Up => Down
    case Right => Left
    case Down => Up
    case Left => Right
  }

  /** The flat index of (row, column): board_index. The width is written
      out so that the index stays linear for the solver. */
  function At(row: int, column: int): int {
    row * 12 + column
  }

  predicate InGrid(row: int, column: int) {
    0 <= row < Height && 0 <= column < Width
  }

  /** The row and column of the cell across wall d. */
  function AcrossRow(row: int, d: Direction): int {
    match d
    case Up => row - 1
    case Down => row + 1
    case _ => row
  }

  function AcrossColumn(column: int, d: Direction): int {
    match d
    case Left => column - 1
    case Right => column + 1
    case _ => column
  }

  /** Wall d of an edge cell that faces off the board. */
  predicate Outer(row: int, column: int, d: Direction) {
    !InGrid(AcrossRow(row, d), AcrossColumn(column, d))
  }

  /** Distinct cells of the board have distinct flat indices. */
  lemma AtInjective(r1: int, c1: int, r2: int, c2: int)
    requires InGrid(r1, c1) && InGrid(r2, c2) && (r1 != r2 || c1 != c2)
    ensures At(r1, c1) != At(r2, c2)
    ensures 0 <= At(r1, c1) < Cells
  {
  }

  /** Every flat index is the index of one cell of the board. */
  lemma CellOf(k: int) returns (r: int, c: int)
    requires 0 <= k < Cells
    ensures InGrid(r, c) && At(r, c) == k
  {
    r := k / Width;
    c := k % Width;
  }

  /** Wall d of (row, column) set to v, together with the facing wall of the
      neighbour when there is one. */
  function SetWallPair(cs: seq<Cell>, row: int, column: int, d: Direction, v: bool): (cs2: seq<Cell>)
    requires |cs| == Cells && InGrid(row, column)
    ensures |cs2| == Cells
  {
    var k := At(row, column);
    var cs1 := cs[k := WithWall(cs[k], d, v)];
    var r2 := AcrossRow(row, d);
    var c2 := AcrossColumn(column, d);
    if InGrid(r2, c2) then
      AtInjective(row, column, r2, c2);
      cs1[At(r2, c2) := WithWall(cs1[At(r2, c2)], Opposite(d), v)]
    else cs1
  }

  /** A pair write sets the two walls it names, keeps the other walls of
      those cells and leaves every other cell alone. */
  lemma SetWallPairFacts(cs: seq<Cell>, row: int, column: int, d: Direction, v: bool)
    requires |cs| == Cells && InGrid(row, column)
    ensures var cs2 := SetWallPair(cs, row, column, d, v);
      && cs2[At(row, column)] == WithWall(cs[At(row, column)], d, v)
      && Wall(cs2[At(row, column)], d) == v
      && (!Outer(row, column, d) ==> Wall(cs2[At(AcrossRow(row, d), AcrossColumn(column, d))], Opposite(d)) == v)
      && (forall e :: e != d ==> Wall(cs2[At(row, column)], e) == Wall(cs[At(row, column)], e))
      && (forall k ::
           (0 <= k < Cells && k != At(row, column)
            && (Outer(row, column, d) || k != At(AcrossRow(row, d), AcrossColumn(column, d))))
           ==> cs2[k] == cs[k])
  {
    var r2 := AcrossRow(row, d);
    var c2 := AcrossColumn(column, d);
    if InGrid(r2, c2) {
      AtInjective(row, column, r2, c2);
    }
  }

  /** A pair write touches exactly the two walls it names. */
  lemma SetWallPairElsewhere(cs: seq<Cell>, row: int, column: int, d: Direction, v: bool, r: int, c: int, e: Direction)
    requires |cs| == Cells && InGrid(row, column) && InGrid(r, c)
    requires r != row || c != column || e != d
    requires Outer(row, column, d) || r != AcrossRow(row, d) || c != AcrossColumn(column, d) || e != Opposite(d)
    ensures Wall(SetWallPair(cs, row, column, d, v)[At(r, c)], e) == Wall(cs[At(r, c)], e)
  {
    SetWallPairFacts(cs, row, column, d, v);
    if r != row || c != column {
      AtInjective(row, column, r, c);
    }
    var r2 := AcrossRow(row, d);
    var c2 := AcrossColumn(column, d);
    if !Outer(row, column, d) && (r != r2 || c != c2) {
      AtInjective(r2, c2, r, c);
    }
  }

  /** Every edge cell has its outer walls. */
  ghost predicate Borders(cs: seq<Cell>)
    requires |cs| == Cells
  {
    forall r, c, d :: InGrid(r, c) && Outer(r, c, d) ==> Wall(cs[At(r, c)], d)
  }

  /** Every interior wall is seen alike from both sides: the right wall of
      a cell is the left wall of the cell to its right, and its down wall
      the up wall of the cell below. */
  ghost predicate Symmetric(cs: seq<Cell>)
    requires |cs| == Cells
  {
    && (forall r, c {:trigger cs[At(r, c)].right} :: InGrid(r, c) && c < LastColumn ==> cs[At(r, c)].right == cs[At(r, c + 1)].left)
    && (forall r, c {:trigger cs[At(r, c)].down} :: InGrid(r, c) && r < LastRow ==> cs[At(r, c)].down == cs[At(r + 1, c)].up)
  }

  /** Every wall of `before` is still a wall in `after`. */
  ghost predicate Grows(before: seq<Cell>, after: seq<Cell>)
    requires |before| == Cells && |after| == Cells
  {
    forall k, d :: 0 <= k < Cells && Wall(before[k], d) ==> Wall(after[k], d)
  }

  lemma GrowsTransitive(a: seq<Cell>, b: seq<Cell>, c: seq<Cell>)
    requires |a| == Cells && |b| == Cells && |c| == Cells
    requires Grows(a, b) && Grows(b, c)
    ensures Grows(a, c)
  {
  }

  /** A pair write keeps the walls symmetric. */
  lemma SetWallPairSymmetric(cs: seq<Cell>, row: int, column: int, d: Direction, v: bool)
    requires |cs| == Cells && InGrid(row, column) && Symmetric(cs)
    ensures Symmetric(SetWallPair(cs, row, column, d, v))
  {
    var cs2 := SetWallPair(cs, row, column, d, v);
    forall r, c | InGrid(r, c) && c < LastColumn
      ensures cs2[At(r, c)].right == cs2[At(r, c + 1)].left
    {
      PairKeepsSideBySide(cs, row, column, d, v, r, c);
    }
    forall r, c | InGrid(r, c) && r < LastRow
      ensures cs2[At(r, c)].down == cs2[At(r + 1, c)].up
    {
      PairKeepsAboveBelow(cs, row, column, d, v, r, c);
    }
  }

  lemma PairKeepsSideBySide(cs: seq<Cell>, row: int, column: int, d: Direction, v: bool, r: int, c: int)
    requires |cs| == Cells && InGrid(row, column) && InGrid(r, c) && c < LastColumn
    requires cs[At(r, c)].right == cs[At(r, c + 1)].left
    ensures var cs2 := SetWallPair(cs, row, column, d, v);
      cs2[At(r, c)].right == cs2[At(r, c + 1)].left
  {
    SetWallPairFacts(cs, row, column, d, v);
    if row == r && column == c && d == Right {
    } else if row == r && column == c + 1 && d == Left {
    } else {
      SetWallPairElsewhere(cs, row, column, d, v, r, c, Right);
      SetWallPairElsewhere(cs, row, column, d, v, r, c + 1, Left);
    }
  }

  lemma PairKeepsAboveBelow(cs: seq<Cell>, row: int, column: int, d: Direction, v: bool, r: int, c: int)
    requires |cs| == Cells && InGrid(row, column) && InGrid(r, c) && r < LastRow
    requires cs[At(r, c)].down == cs[At(r + 1, c)].up
    ensures var cs2 := SetWallPair(cs, row, column, d, v);
      cs2[At(r, c)].down == cs2[At(r + 1, c)].up
  {
    SetWallPairFacts(cs, row, column, d, v);
    if row == r && column == c && d == Down {
    } else if row == r + 1 && column == c && d == Up {
    } else {
      SetWallPairElsewhere(cs, row, column, d, v, r, c, Down);
      SetWallPairElsewhere(cs, row, column, d, v, r + 1, c, Up);
    }
  }

  /** Crossing a wall and then the opposite wall leads back. */
  lemma OppositeAcross(r: int, c: int, d: Direction)
    ensures AcrossRow(AcrossRow(r, d), Opposite(d)) == r
    ensures AcrossColumn(AcrossColumn(c, d), Opposite(d)) == c
    ensures Opposite(Opposite(d)) == d
  {
  }

  /** A pair write keeps the outer walls unless it clears one. */
  lemma SetWallPairBorders(cs: seq<Cell>, row: int, column: int, d: Direction, v: bool)
    requires |cs| == Cells && InGrid(row, column) && Borders(cs)
    requires v || !Outer(row, column, d)
    ensures Borders(SetWallPair(cs, row, column, d, v))
  {
    var cs2 := SetWallPair(cs, row, column, d, v);
    SetWallPairFacts(cs, row, column, d, v);
    forall r, c, e | InGrid(r, c) && Outer(r, c, e)
      ensures Wall(cs2[At(r, c)], e)
    {
      if !(r == row && c == column && e == d) {
        if !Outer(row, column, d) && r == AcrossRow(row, d) && c == AcrossColumn(column, d) && e == Opposite(d) {
          OppositeAcross(row, column, d);
        } else {
          SetWallPairElsewhere(cs, row, column, d, v, r, c, e);
        }
      }
    }
  }

  /** Setting walls only adds walls; clearing them only removes walls. */
  lemma SetWallPairGrows(cs: seq<Cell>, row: int, column: int, d: Direction, v: bool)
    requires |cs| == Cells && InGrid(row, column)
    ensures v ==> Grows(cs, SetWallPair(cs, row, column, d, v))
    ensures !v ==> Grows(SetWallPair(cs, row, column, d, v), cs)
  {
    var cs2 := SetWallPair(cs, row, column, d, v);
    SetWallPairFacts(cs, row, column, d, v);
    forall k, e | 0 <= k < Cells
      ensures v && Wall(cs[k], e) ==> Wall(cs2[k], e)
      ensures !v && Wall(cs2[k], e) ==> Wall(cs[k], e)
    {
      var r, c := CellOf(k);
      if !(r == row && c == column && e == d)
         && !(!Outer(row, column, d) && r == AcrossRow(row, d) && c == AcrossColumn(column, d) && e == Opposite(d)) {
        SetWallPairElsewhere(cs, row, column, d, v, r, c, e);
      }
    }
  }

  /** The walls between neighbouring cells agree in a and b. */
  ghost predicate SameInterior(a: seq<Cell>, b: seq<Cell>)
    requires |a| == Cells && |b| == Cells
  {
    forall r, c, d :: InGrid(r, c) && !Outer(r, c, d) ==> Wall(a[At(r, c)], d) == Wall(b[At(r, c)], d)
  }
}
