/** The maze board of src/board.cpp and src/cell.hpp: HEIGHT x WIDTH cells
    with four wall bits each, the per-row occupancy bitset, and the maze
    generator. */
module Board {
  import opened Common
  import Utils
  import Bag
  import UnionFind
  import opened Walls
  import opened Maze

  /** Board::FULL_ROW_BITMASK (board.hpp:13). */
  const FullRow: bv16 := 0x0fff

  /** board_index (board.cpp:19-26): CELL_ROW_START[row] + column, a
      uint8_t sum. */
  function BoardIndex(row: nat, column: u8): (k: u8)
    requires row < Height
    ensures column < Width ==> k == row * Width + column && k < Cells
    ensures column == Width ==> k == (row + 1) * Width
  {
    ToU8(RowStart(row) + column)
  }

  /** CELL_ROW_START (board.cpp:19-21). */
  function RowStart(row: nat): u8
    requires row < Height
  {
    [0, 12, 24, 36, 48, 60, 72, 84, 96, 108][row]
  }

  function Bit(b: bool, weight: nat): nat {
    if b then weight else 0
  }

  /** walls_to_index (board.cpp:320-336): the bits or-ed in one by one. */
  function WallsToIndex(up: bool, right: bool, down: bool, left: bool): (v: u8)
    ensures v == Bit(up, 1) + Bit(right, 2) + Bit(down, 4) + Bit(left, 8)
    ensures v < 16
  {
    var v0 := 0;
    var v1 := if up then (OrHigherBit(v0, 1); Or8(v0, 1)) else v0;
    var v2 := if right then (OrHigherBit(v1, 2); Or8(v1, 2)) else v1;
    var v3 := if down then (OrHigherBit(v2, 4); Or8(v2, 4)) else v2;
    if left then (OrHigherBit(v3, 8); Or8(v3, 8)) else v3
  }

  /** `|=` of a bit above all bits set so far is addition. */
  lemma OrHigherBit(t: u8, b: u8)
    requires b == 1 || b == 2 || b == 4 || b == 8
    requires t < b
    ensures Or8(t, b) == t + b
  {
    var tb := t as bv8;
    assert (tb | (b as bv8)) == tb + (b as bv8);
  }

  /** walls_to_index is the `walls` nibble of the cell with those walls: it
      is injective, and every nibble 0..15 is the index of one cell. */
  lemma WallsToIndexRoundTrip(c: Cell)
    ensures FromNibble(WallsToIndex(c.up, c.right, c.down, c.left)) == c
  {
  }

  lemma WallsToIndexOnto(n: nat)
    requires n < 16
    ensures WallsToIndex(FromNibble(n).up, FromNibble(n).right, FromNibble(n).down, FromNibble(n).left) == n
  {
  }

  lemma WallsToIndexInjective(a: Cell, b: Cell)
    requires WallsToIndex(a.up, a.right, a.down, a.left) == WallsToIndex(b.up, b.right, b.down, b.left)
    ensures a == b
  {
    WallsToIndexRoundTrip(a);
    WallsToIndexRoundTrip(b);
  }

  /** OCCUPIED_BITMASK (board.hpp:19), whose values are not part of the
      model: twelve distinct single bits inside FULL_ROW_BITMASK. */
  ghost predicate ValidMasks(masks: seq<bv16>) {
    |masks| == Width
    && (forall j :: 0 <= j < Width ==> SingleBit(masks[j]))
    && (forall j, k :: 0 <= j < k < Width ==> Disjoint(masks[j], masks[k]))
  }

  /** A single bit of the twelve of a row. */
  predicate SingleBit(m: bv16) {
    m != 0 && m & (m - 1) == 0 && m & !FullRow == 0
  }

  predicate Disjoint(a: bv16, b: bv16) {
    a & b == 0
  }

  class Board {
    const masks: seq<bv16>
    var occupiedBitset: array<bv16>
    var cell: array<Cell>

    ghost predicate Valid()
      reads this
    {
      ValidMasks(masks) && occupiedBitset.Length == Height && cell.Length == Cells
      && occupiedBitset != cell as object
    }

    /** Board() with every Cell() at walls 0 (board.cpp:17, 32) and the
        occupancy zero, as for the static board object. */
    constructor(masks: seq<bv16>)
      requires ValidMasks(masks)
      ensures Valid() && this.masks == masks && fresh(occupiedBitset) && fresh(cell)
      ensures forall k :: 0 <= k < Cells ==> cell[k] == NoWalls
      ensures forall r :: 0 <= r < Height ==> occupiedBitset[r] == 0
    {
      this.masks := masks;
      occupiedBitset := new bv16[Height](_ => 0);
      cell := new Cell[Cells](_ => NoWalls);
    }

    /** occupied (board.cpp:211-219). */
    predicate Occupied(row: int, column: int)
      reads this, occupiedBitset
      requires Valid()
    {
      OccupiedIn(occupiedBitset[..], masks, row, column)
    }

    /** occupy (board.cpp:221-223): one bit of one row is set; no other
        cell changes. */
    method Occupy(row: int, column: int)
      requires Valid() && 0 <= row < Height && 0 <= column < Width
      modifies occupiedBitset
      ensures occupiedBitset[..] == old(occupiedBitset[..])[row := Set(old(occupiedBitset[row]), masks[column])]
      ensures Occupied(row, column)
    {
      ghost var before := occupiedBitset[..];
      OwnBits(before[row], masks[column]);
      occupiedBitset[row] := Set(occupiedBitset[row], masks[column]);
      assert occupiedBitset[..] == before[row := Set(before[row], masks[column])];
    }

    /** free (board.cpp:225-227): one bit of one row is cleared; no other
        cell changes. */
    method Free(row: int, column: int)
      requires Valid() && 0 <= row < Height && 0 <= column < Width
      modifies occupiedBitset
      ensures occupiedBitset[..] == old(occupiedBitset[..])[row := Clear(old(occupiedBitset[row]), masks[column])]
      ensures !Occupied(row, column)
    {
      ghost var before := occupiedBitset[..];
      OwnBits(before[row], masks[column]);
      occupiedBitset[row] := Clear(occupiedBitset[row], masks[column]);
      assert occupiedBitset[..] == before[row := Clear(before[row], masks[column])];
    }

    /** row_filled (board.cpp:512-514): the row's bits are exactly
        FULL_ROW_BITMASK, and then every cell of the row is occupied. */
    predicate RowFilled(row: int)
      reads this, occupiedBitset
      requires Valid() && 0 <= row < Height
    {
      occupiedBitset[row] == FullRow
    }

    lemma FilledRowIsOccupied(row: int)
      requires Valid() && 0 <= row < Height && RowFilled(row)
      ensures forall c :: 0 <= c < Width ==> Occupied(row, c)
    {
    }

    /** One wall write of generate_maze: wall d of (row, column) and, when
        the neighbour across it is on the board, the neighbour's facing
        wall (board.cpp:74-113, 120-129, 169-189). */
    method SetWalls(row: int, column: int, d: Direction, v: bool)
      requires Valid() && InGrid(row, column)
      modifies cell
      ensures cell[..] == SetWallPair(old(cell[..]), row, column, d, v)
    {
      ghost var before := cell[..];
      var k := BoardIndex(row, column);
      cell[k] := WithWall(cell[k], d, v);
      var r2 := AcrossRow(row, d);
      var c2 := AcrossColumn(column, d);
      if InGrid(r2, c2) {
        AtInjective(row, column, r2, c2);
        var k2 := BoardIndex(r2, c2);
        cell[k2] := WithWall(cell[k2], Opposite(d), v);
      }
      assert cell[..] == SetWallPair(before, row, column, d, v);
    }

    /** generate_maze, "reset walls" (board.cpp:37-42). */
    method ResetWalls()
      requires Valid()
      modifies cell
      ensures forall k :: 0 <= k < Cells ==> cell[k] == NoWalls
    {
      var i := 0;
      while i < Height
        invariant 0 <= i <= Height
        invariant forall k :: 0 <= k < At(i, 0) ==> cell[k] == NoWalls
      {
        var j := 0;
        while j < Width
          invariant 0 <= j <= Width
          invariant forall k :: 0 <= k < At(i, j) ==> cell[k] == NoWalls
        {
          cell[BoardIndex(i, j)] := NoWalls;
          j := j + 1;
        }
        i := i + 1;
      }
    }

    /** generate_maze, "read required walls from template"
        (board.cpp:51-60): every cell whose template byte is not the 0xff
        marker takes the template's walls nibble. */
    method RequiredWalls(template: seq<TemplateCell>)
      requires Valid() && |template| == Cells
      modifies cell
      ensures forall k :: 0 <= k < Cells ==>
        cell[k] == if !Marked(template[k]) then template[k].walls else old(cell[k])
    {
      ghost var before := cell[..];
      var i := 0;
      while i < Height
        invariant 0 <= i <= Height
        invariant forall k :: 0 <= k < Cells ==>
          cell[k] == if k < At(i, 0) && !Marked(template[k]) then template[k].walls else before[k]
      {
        var j := 0;
        while j < Width
          invariant 0 <= j <= Width
          invariant forall k :: 0 <= k < Cells ==>
            cell[k] == if k < At(i, j) && !Marked(template[k]) then template[k].walls else before[k]
        {
          var k := BoardIndex(i, j);
          assert k == At(i, j);
          var templateCell := template[k];
          ValueMarked(templateCell);
          if Value(templateCell) != 0xff {
            cell[k] := templateCell.walls;
          }
          j := j + 1;
        }
        i := i + 1;
      }
    }

    /** The write of one NEED_WALL test (board.cpp:92-113): when the test
        passes, wall e of (row, column) and the neighbour's facing wall
        are set. */
    method AddWall(row: int, column: int, e: Direction, need: bool, ghost sym: bool)
      requires Valid() && InGrid(row, column)
      requires sym ==> Symmetric(cell[..])
      modifies cell
      ensures Grows(old(cell[..]), cell[..])
      ensures sym ==> Symmetric(cell[..])
      ensures cell[At(row, column)] ==
        WithWall(old(cell[At(row, column)]), e, Wall(old(cell[At(row, column)]), e) || need)
      ensures need && !Outer(row, column, e) ==>
        Wall(cell[At(AcrossRow(row, e), AcrossColumn(column, e))], Opposite(e))
      ensures !need ==> cell[..] == old(cell[..])
    {
      if need {
        ghost var before := cell[..];
        SetWalls(row, column, e, true);
        SetWallPairFacts(before, row, column, e, true);
        SetWallPairGrows(before, row, column, e, true);
        if sym {
          SetWallPairSymmetric(before, row, column, e, true);
        }
      }
    }

    /** generate_maze, "read maybe walls from template" for one cell
        (board.cpp:62-115). A cell marked 0xff gets one of the four walls
        of the old berzerk algorithm; any other cell runs its NEED_WALL
        tests. */
    method MaybeCell(template: seq<TemplateCell>, i: int, j: int, draws: seq<u8>, d: nat,
                     ghost start: seq<Cell>, ghost sym: bool) returns (d2: nat)
      requires Valid() && |template| == Cells && InGrid(i, j)
      requires Marked(template[At(i, j)]) ==> i < LastRow && j < LastColumn
      requires d + DrawsFor(template[At(i, j)]) <= |draws|
      requires |start| == Cells && Grows(start, cell[..])
      requires sym ==> Symmetric(cell[..])
      modifies cell
      ensures d2 == d + DrawsFor(template[At(i, j)])
      ensures Grows(start, cell[..])
      ensures sym ==> Symmetric(cell[..])
    {
      ghost var before := cell[..];
      var t := template[BoardIndex(i, j)];
      ValueMarked(t);
      if Value(t) == 0xff {
        d2 := BerzerkCell(i, j, draws, d, sym);
      } else {
        d2 := NeedWalls(t, i, j, draws, d, sym);
      }
      GrowsTransitive(start, before, cell[..]);
    }

    /** The berzerk branch (board.cpp:67-88): one draw picks one of four
        walls of the 2x2 block whose top left is (i, j). */
    method BerzerkCell(i: int, j: int, draws: seq<u8>, d: nat, ghost sym: bool) returns (d2: nat)
      requires Valid() && 0 <= i < LastRow && 0 <= j < LastColumn && d < |draws|
      requires sym ==> Symmetric(cell[..])
      modifies cell
      ensures d2 == d + 1
      ensures Grows(old(cell[..]), cell[..])
      ensures sym ==> Symmetric(cell[..])
      ensures var r := draws[d] % 4;
        && Wall(cell[At(BerzerkRow(i, r), BerzerkColumn(j, r))], BerzerkDirection(r))
        && Wall(cell[At(AcrossRow(BerzerkRow(i, r), BerzerkDirection(r)), AcrossColumn(BerzerkColumn(j, r), BerzerkDirection(r)))],
                Opposite(BerzerkDirection(r)))
    {
      var r := draws[d] % 4;
      AddWall(BerzerkRow(i, r), BerzerkColumn(j, r), BerzerkDirection(r), true, sym);
      d2 := d + 1;
    }

    /** The NEED_WALL tests of a cell not marked 0xff (board.cpp:90-113):
        up, down, left and right in that order, each drawing only when its
        maybe bit is set and setting its wall when the draw's low two bits
        are zero. */
    method NeedWalls(t: TemplateCell, i: int, j: int, draws: seq<u8>, d: nat, ghost sym: bool) returns (d2: nat)
      requires Valid() && InGrid(i, j) && !Marked(t) && d + DrawsFor(t) <= |draws|
      requires sym ==> Symmetric(cell[..])
      modifies cell
      ensures d2 == d + DrawsFor(t)
      ensures Grows(old(cell[..]), cell[..])
      ensures sym ==> Symmetric(cell[..])
      ensures cell[At(i, j)] == NeedCell(old(cell[At(i, j)]), t, draws, d)
    {
      ghost var c0 := cell[..];
      NeedCellUnfold(c0[At(i, j)], t, draws, d);
      d2 := NeedWallsPair(t, Up, Down, i, j, draws, d, sym);
      ghost var c1 := cell[..];
      d2 := NeedWallsPair(t, Left, Right, i, j, draws, d2, sym);
      GrowsTransitive(c0, c1, cell[..]);
    }

    /** Two consecutive NEED_WALL tests. */
    method NeedWallsPair(t: TemplateCell, e: Direction, f: Direction, i: int, j: int, draws: seq<u8>, d: nat, ghost sym: bool) returns (d2: nat)
      requires Valid() && InGrid(i, j)
      requires d + Bit(MaybeBit(t, e), 1) + Bit(MaybeBit(t, f), 1) <= |draws|
      requires sym ==> Symmetric(cell[..])
      modifies cell
      ensures d2 == d + Bit(MaybeBit(t, e), 1) + Bit(MaybeBit(t, f), 1)
      ensures Grows(old(cell[..]), cell[..])
      ensures sym ==> Symmetric(cell[..])
      ensures cell[At(i, j)] ==
        TestedCell(TestedCell(old(cell[At(i, j)]), t, e, draws, d), t, f, draws, d + Bit(MaybeBit(t, e), 1))
    {
      ghost var c0 := cell[..];
      d2 := NeedWall(t, e, i, j, draws, d, sym);
      ghost var c1 := cell[..];
      d2 := NeedWall(t, f, i, j, draws, d2, sym);
      GrowsTransitive(c0, c1, cell[..]);
    }

    /** One NEED_WALL(e) test and its write: a draw is taken only when the
        maybe bit is set, and the wall is set when its low two bits are
        zero. */
    method NeedWall(t: TemplateCell, e: Direction, i: int, j: int, draws: seq<u8>, d: nat, ghost sym: bool) returns (d2: nat)
      requires Valid() && InGrid(i, j) && d + Bit(MaybeBit(t, e), 1) <= |draws|
      requires sym ==> Symmetric(cell[..])
      modifies cell
      ensures d2 == d + Bit(MaybeBit(t, e), 1)
      ensures Grows(old(cell[..]), cell[..])
      ensures sym ==> Symmetric(cell[..])
      ensures cell[At(i, j)] == TestedCell(old(cell[At(i, j)]), t, e, draws, d)
    {
      var need := false;
      d2 := d;
      if MaybeBit(t, e) {
        need := draws[d] % 4 == 0;
        d2 := d + 1;
      }
      AddWall(i, j, e, need, sym);
    }

    /** generate_maze, "read maybe walls from template" (board.cpp:62-115):
        the cells in row-major order, each taking its draws after the
        previous cell's. Walls are only added, and walls that were
        symmetric stay symmetric. */
    method MaybeWalls(template: seq<TemplateCell>, draws: seq<u8>, d0: nat, ghost sym: bool) returns (d: nat)
      requires Valid() && |template| == Cells && BerzerkInRange(template)
      requires d0 + MaybeDraws(template, Cells) <= |draws|
      requires sym ==> Symmetric(cell[..])
      modifies cell
      ensures d == d0 + MaybeDraws(template, Cells)
      ensures Grows(old(cell[..]), cell[..])
      ensures sym ==> Symmetric(cell[..])
    {
      ghost var start := cell[..];
      d := d0;
      var i := 0;
      while i < Height
        invariant 0 <= i <= Height
        invariant d == d0 + MaybeDraws(template, At(i, 0))
        invariant Grows(start, cell[..])
        invariant sym ==> Symmetric(cell[..])
      {
        MaybeDrawsMonotone(template, At(i + 1, 0), Cells);
        d := MaybeRow(template, i, draws, d0, d, start, sym);
        i := i + 1;
      }
    }

    /** The inner loop of "read maybe walls from template": one row. */
    method MaybeRow(template: seq<TemplateCell>, i: int, draws: seq<u8>, ghost base: nat, d0: nat,
                    ghost start: seq<Cell>, ghost sym: bool) returns (d: nat)
      requires Valid() && |template| == Cells && BerzerkInRange(template) && 0 <= i < Height
      requires d0 == base + MaybeDraws(template, At(i, 0))
      requires base + MaybeDraws(template, At(i + 1, 0)) <= |draws|
      requires |start| == Cells && Grows(start, cell[..])
      requires sym ==> Symmetric(cell[..])
      modifies cell
      ensures d == base + MaybeDraws(template, At(i + 1, 0))
      ensures Grows(start, cell[..])
      ensures sym ==> Symmetric(cell[..])
    {
      d := d0;
      var j := 0;
      while j < Width
        invariant 0 <= j <= Width
        invariant d == base + MaybeDraws(template, At(i, j))
        invariant Grows(start, cell[..])
        invariant sym ==> Symmetric(cell[..])
      {
        MaybeDrawsMonotone(template, At(i, j + 1), At(i + 1, 0));
        assert MaybeDraws(template, At(i, j + 1)) == MaybeDraws(template, At(i, j)) + DrawsFor(template[At(i, j)]) by {
          MaybeDrawsStep(template, At(i, j));
          assert At(i, j + 1) == At(i, j) + 1;
        }
        d := MaybeCell(template, i, j, draws, d, start, sym);
        j := j + 1;
      }
    }

    /** generate_maze, "border walls" (board.cpp:120-129): the outer walls
        of the edge cells are set and no other wall changes. */
    method BorderWalls()
      requires Valid()
      modifies cell
      ensures BorderedFrom(old(cell[..]), cell[..])
    {
      var i := 0;
      while i < Height
        invariant 0 <= i <= Height
        invariant forall r, c :: InGrid(r, c) ==>
          cell[At(r, c)] == if r < i then SidesOf(old(cell[At(r, c)]), c) else old(cell[At(r, c)])
      {
        var first := BoardIndex(i, 0);
        cell[first] := cell[first].(left := true);
        var last := BoardIndex(i, Width - 1);
        cell[last] := cell[last].(right := true);
        i := i + 1;
      }
      var j := 0;
      while j < Width
        invariant 0 <= j <= Width
        invariant forall r, c :: InGrid(r, c) ==>
          cell[At(r, c)] == if c < j then EndsOf(SidesOf(old(cell[At(r, c)]), c), r) else SidesOf(old(cell[At(r, c)]), c)
      {
        var top := BoardIndex(0, j);
        cell[top] := cell[top].(up := true);
        var bottom := BoardIndex(Height - 1, j);
        cell[bottom] := cell[bottom].(down := true);
        j := j + 1;
      }
    }

    /** generate_maze, "make all cells free" (board.cpp:194-199). */
    method FreeAll()
      requires Valid()
      modifies occupiedBitset
      ensures forall r, c :: 0 <= r < Height && 0 <= c < Width ==> !Occupied(r, c)
    {
      var i := 0;
      while i < Height
        invariant 0 <= i <= Height
        invariant forall r, c :: 0 <= r < i && 0 <= c < Width ==> !Occupied(r, c)
      {
        var j := 0;
        while j < Width
          invariant 0 <= j <= Width
          invariant forall r, c :: (0 <= r < i && 0 <= c < Width) || (r == i && 0 <= c < j) ==> !Occupied(r, c)
        {
          ghost var before := occupiedBitset[..];
          forall r, c | (0 <= r < i && 0 <= c < Width) || (r == i && 0 <= c < j)
            ensures !OccupiedIn(before, masks, r, c)
          {
            assert !Occupied(r, c);
          }
          Free(i, j);
          forall r, c | (0 <= r < i && 0 <= c < Width) || (r == i && 0 <= c < j)
            ensures !Occupied(r, c)
          {
            OtherCellsKept(before, masks, i, j, r, c);
          }
          j := j + 1;
        }
        i := i + 1;
      }
    }


    /** One cell of the first union-find pass (board.cpp:135-142): the cell
        joins its right and lower neighbours when no wall separates them. */
    method FirstPassCell(ds: UnionFind.DisjointSet, i: int, j: int, ghost paths: seq<seq<int>>)
      returns (ghost paths2: seq<seq<int>>)
      requires Valid() && ds.Valid() && ds.parent.Length == Cells && InGrid(i, j)
      requires Witnessed(cell[..], ds.Classes(), paths)
      modifies ds.parent, ds`rank, ds`bound
      ensures ds.Valid() && Witnessed(cell[..], ds.Classes(), paths2)
      ensures Coarser(old(ds.Classes()), ds.Classes())
      ensures OpenLinkedAt(cell[..], ds.Classes(), i, j)
    {
      ghost var c0 := ds.Classes();
      paths2 := FirstPassRight(ds, i, j, paths);
      ghost var c1 := ds.Classes();
      paths2 := FirstPassDown(ds, i, j, paths2);
      ghost var c2 := ds.Classes();
      CoarserTransitive(c0, c1, c2);
      if j < LastColumn && c1[At(i, j)] == c1[At(i, j + 1)] {
        CoarserAt(c1, c2, At(i, j), At(i, j + 1));
      }
    }

    /** `current->join(right)` when the right wall is open (board.cpp:136-138). */
    method FirstPassRight(ds: UnionFind.DisjointSet, i: int, j: int, ghost paths: seq<seq<int>>)
      returns (ghost paths2: seq<seq<int>>)
      requires Valid() && ds.Valid() && ds.parent.Length == Cells && InGrid(i, j)
      requires Witnessed(cell[..], ds.Classes(), paths)
      modifies ds.parent, ds`rank, ds`bound
      ensures ds.Valid() && Witnessed(cell[..], ds.Classes(), paths2)
      ensures Coarser(old(ds.Classes()), ds.Classes())
      ensures j < LastColumn && !cell[At(i, j)].right ==> ds.Classes()[At(i, j)] == ds.Classes()[At(i, j + 1)]
    {
      paths2 := paths;
      var current := BoardIndex(i, j);
      if j < Width - 1 && !cell[current].right {
        PassageRight(cell[..], i, j);
        var right := BoardIndex(i, j + 1);
        assert current == At(i, j) && right == At(i, j + 1);
        paths2 := JoinAlong(ds, current, right, cell[..], paths2);
      }
    }

    /** `current->join(down)` when the down wall is open (board.cpp:139-141). */
    method FirstPassDown(ds: UnionFind.DisjointSet, i: int, j: int, ghost paths: seq<seq<int>>)
      returns (ghost paths2: seq<seq<int>>)
      requires Valid() && ds.Valid() && ds.parent.Length == Cells && InGrid(i, j)
      requires Witnessed(cell[..], ds.Classes(), paths)
      modifies ds.parent, ds`rank, ds`bound
      ensures ds.Valid() && Witnessed(cell[..], ds.Classes(), paths2)
      ensures Coarser(old(ds.Classes()), ds.Classes())
      ensures i < LastRow && !cell[At(i, j)].down ==> ds.Classes()[At(i, j)] == ds.Classes()[At(i + 1, j)]
    {
      paths2 := paths;
      var current := BoardIndex(i, j);
      if i < Height - 1 && !cell[current].down {
        PassageDown(cell[..], i, j);
        var down := BoardIndex(i + 1, j);
        assert current == At(i, j) && down == At(i + 1, j);
        paths2 := JoinAlong(ds, current, down, cell[..], paths2);
      }
    }

    /** generate_maze, first union-find pass (board.cpp:133-143): every
        cell ends up in the class of each neighbour it has an open wall
        to, and every class is still connected by open walls. */
    method FirstPass(ds: UnionFind.DisjointSet, ghost paths: seq<seq<int>>) returns (ghost paths2: seq<seq<int>>)
      requires Valid() && ds.Valid() && ds.parent.Length == Cells
      requires Witnessed(cell[..], ds.Classes(), paths)
      modifies ds.parent, ds`rank, ds`bound
      ensures ds.Valid() && Witnessed(cell[..], ds.Classes(), paths2)
      ensures OpenLinked(cell[..], ds.Classes(), Cells)
    {
      paths2 := paths;
      var i := 0;
      while i < Height
        invariant 0 <= i <= Height
        invariant ds.Valid() && Witnessed(cell[..], ds.Classes(), paths2)
        invariant OpenLinked(cell[..], ds.Classes(), At(i, 0))
      {
        var j := 0;
        while j < Width
          invariant 0 <= j <= Width
          invariant ds.Valid() && Witnessed(cell[..], ds.Classes(), paths2)
          invariant OpenLinked(cell[..], ds.Classes(), At(i, j))
        {
          ghost var before := ds.Classes();
          paths2 := FirstPassCell(ds, i, j, paths2);
          OpenLinkedKept(cell[..], before, ds.Classes(), At(i, j));
          OpenLinkedNext(cell[..], ds.Classes(), i, j);
          j := j + 1;
        }
        i := i + 1;
      }
    }

    /** The down case of the merge loop (board.cpp:169-174, 183-188): when
        the cell and the one below are in different classes, the wall
        between them is cleared and the lower one joins the cell. */
    method MergeDown(ds: UnionFind.DisjointSet, i: int, j: int, ghost paths: seq<seq<int>>, ghost sym: bool)
      returns (ghost paths2: seq<seq<int>>)
      requires Valid() && ds.Valid() && ds.parent.Length == Cells && InGrid(i, j)
      requires Witnessed(cell[..], ds.Classes(), paths) && Borders(cell[..])
      requires sym ==> Symmetric(cell[..])
      modifies cell, ds.parent, ds`rank, ds`bound
      ensures ds.Valid() && Witnessed(cell[..], ds.Classes(), paths2) && Borders(cell[..])
      ensures sym ==> Symmetric(cell[..])
      ensures Coarser(old(ds.Classes()), ds.Classes())
      ensures i < LastRow ==> ds.Classes()[At(i, j)] == ds.Classes()[At(i + 1, j)]
    {
      paths2 := paths;
      if i < Height - 1 {
        var current := BoardIndex(i, j);
        var down := BoardIndex(i + 1, j);
        assert current == At(i, j) && down == At(i + 1, j);
        var r1 := ds.Representative(current);
        var r2 := ds.Representative(down);
        if r1 != r2 {
          paths2 := MergeAcross(ds, i, j, Down, paths2, sym);
        }
      }
    }

    /** The right case of the merge loop (board.cpp:176-181). */
    method MergeRight(ds: UnionFind.DisjointSet, i: int, j: int, ghost paths: seq<seq<int>>, ghost sym: bool)
      returns (ghost paths2: seq<seq<int>>)
      requires Valid() && ds.Valid() && ds.parent.Length == Cells && InGrid(i, j)
      requires Witnessed(cell[..], ds.Classes(), paths) && Borders(cell[..])
      requires sym ==> Symmetric(cell[..])
      modifies cell, ds.parent, ds`rank, ds`bound
      ensures ds.Valid() && Witnessed(cell[..], ds.Classes(), paths2) && Borders(cell[..])
      ensures sym ==> Symmetric(cell[..])
      ensures Coarser(old(ds.Classes()), ds.Classes())
      ensures j < LastColumn ==> ds.Classes()[At(i, j)] == ds.Classes()[At(i, j + 1)]
    {
      paths2 := paths;
      if j < Width - 1 {
        var current := BoardIndex(i, j);
        var right := BoardIndex(i, j + 1);
        assert current == At(i, j) && right == At(i, j + 1);
        var r1 := ds.Representative(current);
        var r2 := ds.Representative(right);
        if r1 != r2 {
          paths2 := MergeAcross(ds, i, j, Right, paths2, sym);
        }
      }
    }

    /** A merge step across an inner wall of (i, j): the wall pair is
        cleared and the neighbour joins the cell (board.cpp:170-173,
        177-180, 184-187). */
    method MergeAcross(ds: UnionFind.DisjointSet, i: int, j: int, d: Direction, ghost paths: seq<seq<int>>, ghost sym: bool)
      returns (ghost paths2: seq<seq<int>>)
      requires Valid() && ds.Valid() && ds.parent.Length == Cells && InGrid(i, j)
      requires (d == Right && j < LastColumn) || (d == Down && i < LastRow)
      requires Witnessed(cell[..], ds.Classes(), paths) && Borders(cell[..])
      requires sym ==> Symmetric(cell[..])
      modifies cell, ds.parent, ds`rank, ds`bound
      ensures ds.Valid() && Witnessed(cell[..], ds.Classes(), paths2) && Borders(cell[..])
      ensures sym ==> Symmetric(cell[..])
      ensures Coarser(old(ds.Classes()), ds.Classes())
      ensures ds.Classes()[At(i, j)] == ds.Classes()[At(AcrossRow(i, d), AcrossColumn(j, d))]
    {
      var current := BoardIndex(i, j);
      var other := BoardIndex(AcrossRow(i, d), AcrossColumn(j, d));
      assert current == At(i, j) && other == At(AcrossRow(i, d), AcrossColumn(j, d));
      Open(ds, i, j, d, paths, sym);
      paths2 := JoinAlong(ds, other, current, cell[..], paths);
    }

    /** Clearing an inner wall pair: the walks stay walks, the border stays
        walled, symmetric walls stay symmetric and the two cells have a
        passage between them. */
    method Open(ds: UnionFind.DisjointSet, i: int, j: int, d: Direction, ghost paths: seq<seq<int>>, ghost sym: bool)
      requires Valid() && ds.Valid() && ds.parent.Length == Cells && InGrid(i, j)
      requires (d == Right && j < LastColumn) || (d == Down && i < LastRow)
      requires Witnessed(cell[..], ds.Classes(), paths) && Borders(cell[..])
      requires sym ==> Symmetric(cell[..])
      modifies cell
      ensures Witnessed(cell[..], ds.Classes(), paths) && Borders(cell[..])
      ensures sym ==> Symmetric(cell[..])
      ensures Passage(cell[..], At(i, j), At(AcrossRow(i, d), AcrossColumn(j, d)))
      ensures Passage(cell[..], At(AcrossRow(i, d), AcrossColumn(j, d)), At(i, j))
    {
      ghost var before := cell[..];
      SetWalls(i, j, d, false);
      SetWallPairFacts(before, i, j, d, false);
      SetWallPairGrows(before, i, j, d, false);
      SetWallPairBorders(before, i, j, d, false);
      if sym {
        SetWallPairSymmetric(before, i, j, d, false);
      }
      WitnessedWider(before, cell[..], ds.Classes(), paths);
      if d == Right {
        PassageRight(cell[..], i, j);
      } else {
        PassageDown(cell[..], i, j);
      }
    }

    /** One cell of the merge loop (board.cpp:159-189): with the down case
        first or last as the drawn bit says, the cell ends up in the class
        of its right and lower neighbours. */
    method MergeCell(ds: UnionFind.DisjointSet, i: int, j: int, downFirst: bool, ghost paths: seq<seq<int>>, ghost sym: bool)
      returns (ghost paths2: seq<seq<int>>)
      requires Valid() && ds.Valid() && ds.parent.Length == Cells && InGrid(i, j)
      requires Witnessed(cell[..], ds.Classes(), paths) && Borders(cell[..])
      requires sym ==> Symmetric(cell[..])
      modifies cell, ds.parent, ds`rank, ds`bound
      ensures ds.Valid() && Witnessed(cell[..], ds.Classes(), paths2) && Borders(cell[..])
      ensures sym ==> Symmetric(cell[..])
      ensures Coarser(old(ds.Classes()), ds.Classes())
      ensures LinkedAt(ds.Classes(), i, j)
    {
      ghost var c0 := ds.Classes();
      paths2 := paths;
      if downFirst {
        paths2 := MergeDown(ds, i, j, paths2, sym);
      }
      ghost var c1 := ds.Classes();
      paths2 := MergeRight(ds, i, j, paths2, sym);
      ghost var c2 := ds.Classes();
      if !downFirst {
        paths2 := MergeDown(ds, i, j, paths2, sym);
      }
      CoarserTransitive(c0, c1, c2);
      CoarserTransitive(c0, c2, ds.Classes());
    }

    /** generate_maze, the merge loop (board.cpp:157-192): the rows in the
        row bag's order and, in each, the columns in the column bag's order;
        every cell is visited once, so every cell ends up in the class of
        its neighbours, one class in all. */
    method MergePass(ds: UnionFind.DisjointSet, rowBag: Bag.Bag<u8>, columnBag: Bag.Bag<u8>,
                     draws: seq<u8>, d0: nat, ghost paths: seq<seq<int>>, ghost sym: bool)
      returns (d: nat, ghost paths2: seq<seq<int>>)
      requires Valid() && ds.Valid() && ds.parent.Length == Cells
      requires rowBag.Valid() && rowBag.N == Height && rowBag.index == 0 && IsRange(rowBag.items[..], Height)
      requires columnBag.Valid() && columnBag.N == Width && columnBag.index == 0 && IsRange(columnBag.items[..], Width)
      requires Witnessed(cell[..], ds.Classes(), paths) && Borders(cell[..])
      requires sym ==> Symmetric(cell[..])
      requires d0 + Cells <= |draws|
      modifies cell, ds.parent, ds`rank, ds`bound, rowBag`index, columnBag`index
      ensures ds.Valid() && Witnessed(cell[..], ds.Classes(), paths2) && Borders(cell[..])
      ensures sym ==> Symmetric(cell[..])
      ensures AllLinked(ds.Classes())
      ensures d == d0 + Cells
    {
      ghost var rowItems := rowBag.items[..];
      ghost var columnItems := columnBag.items[..];
      RangeMembers(rowItems, Height);
      RangeMembers(columnItems, Width);
      paths2 := paths;
      d := d0;
      var rows := 0;
      while rows < Height
        invariant 0 <= rows <= Height && d == d0 + rows * Width
        invariant rowBag.Valid() && columnBag.Valid() && columnBag.index == 0
        invariant rows < Height ==> rowBag.index == rows
        invariant ds.Valid() && Witnessed(cell[..], ds.Classes(), paths2) && Borders(cell[..])
        invariant sym ==> Symmetric(cell[..])
        invariant Merged(ds.Classes(), rowItems, columnItems, rows, 0)
      {
        var i := rowBag.Take();
        ghost var nextRow := rowBag.index;
        var columns := 0;
        while columns < Width
          invariant 0 <= columns <= Width && d == d0 + rows * Width + columns
          invariant rowBag.Valid() && columnBag.Valid() && rowBag.index == nextRow
          invariant columns < Width ==> columnBag.index == columns
          invariant columns == Width ==> columnBag.index == 0
          invariant ds.Valid() && Witnessed(cell[..], ds.Classes(), paths2) && Borders(cell[..])
          invariant sym ==> Symmetric(cell[..])
          invariant Merged(ds.Classes(), rowItems, columnItems, rows, columns)
        {
          var j := columnBag.Take();
          var downFirst := And8(draws[d], 1) == 1;
          ghost var before := ds.Classes();
          paths2 := MergeCell(ds, i, j, downFirst, paths2, sym);
          MergedKept(before, ds.Classes(), rowItems, columnItems, rows, columns);
          d := d + 1;
          columns := columns + 1;
        }
        rows := rows + 1;
      }
      MergedAll(ds.Classes(), rowItems, columnItems);
    }

    /** generate_maze, the union-find part (board.cpp:130-192): a set per
        cell, the first pass over the open walls, the two bags and the
        merge loop. Afterwards every cell reaches every other; the merge
        only clears inner walls. */
    method Connect(draws: seq<u8>, d: nat, ghost sym: bool)
      requires Valid() && Borders(cell[..]) && (sym ==> Symmetric(cell[..]))
      requires d + Height + Width + Cells <= |draws|
      modifies cell
      ensures Borders(cell[..]) && Connected(cell[..])
      ensures sym ==> Symmetric(cell[..])
    {
      var ds := new UnionFind.DisjointSet(Cells);
      SingletonsWitnessed(cell[..], ds.Classes());
      ghost var paths := FirstPass(ds, Singletons());

      var rowBag := new Bag.Bag<u8>(Height);
      FillBag(rowBag, draws, d);
      var columnBag := new Bag.Bag<u8>(Width);
      FillBag(columnBag, draws, d + Height);
      var d2;
      d2, paths := MergePass(ds, rowBag, columnBag, draws, d + Height + Width, paths, sym);
      AllReach(cell[..], ds.Classes(), paths);
    }

    /** generate_maze (board.cpp:36-200). The rand8() draws are read from
        `draws` in order. The result has every outer wall, no unreachable
        cell, the two sides of every inner wall agree when the template's
        required walls do, and no cell is occupied. */
    method GenerateMaze(template: seq<TemplateCell>, draws: seq<u8>)
      requires Valid() && |template| == Cells && BerzerkInRange(template)
      requires MaybeDraws(template, Cells) + Height + Width + Cells <= |draws|
      modifies cell, occupiedBitset
      ensures Borders(cell[..]) && Connected(cell[..])
      ensures Symmetric(RequiredGrid(template)) ==> Symmetric(cell[..])
      ensures forall r, c :: 0 <= r < Height && 0 <= c < Width ==> !Occupied(r, c)
    {
      ResetWalls();
      RequiredWalls(template);
      ghost var sym := Symmetric(RequiredGrid(template));
      assert cell[..] == RequiredGrid(template);
      var d := MaybeWalls(template, draws, 0, sym);
      ghost var beforeBorders := cell[..];
      BorderWalls();
      BorderedFacts(beforeBorders, cell[..]);

      Connect(draws, d, sym);
      FreeAll();
    }

  }

  /** A TemplateCell (maze-defs.hpp:11-20): eight one-bit fields, the
      required walls in the low nibble and the maybe walls in the high
      one. */
  datatype TemplateCell = TemplateCell(walls: Cell, maybe: Cell)

  const AllWalls := Cell(true, true, true, true)

  /** The cell's byte, `template_cell.value`: the walls nibble below the
      maybe nibble. */
  function Value(tc: TemplateCell): (v: u8)
    ensures v % 16 == WallsToIndex(tc.walls.up, tc.walls.right, tc.walls.down, tc.walls.left)
    ensures v / 16 == WallsToIndex(tc.maybe.up, tc.maybe.right, tc.maybe.down, tc.maybe.left)
  {
    WallsToIndex(tc.walls.up, tc.walls.right, tc.walls.down, tc.walls.left)
      + 16 * WallsToIndex(tc.maybe.up, tc.maybe.right, tc.maybe.down, tc.maybe.left)
  }

  /** The 0xff marker of a berzerk cell: all eight bits set. */
  predicate Marked(tc: TemplateCell) {
    tc.walls == AllWalls && tc.maybe == AllWalls
  }

  /** `value == 0xff` exactly when all eight bit fields are set. */
  lemma ValueMarked(tc: TemplateCell)
    ensures Value(tc) == 0xff <==> Marked(tc)
  {
    if Value(tc) == 0xff {
      WallsToIndexInjective(tc.walls, AllWalls);
      WallsToIndexInjective(tc.maybe, AllWalls);
    }
  }

  /** The maybe bit of direction e. */
  function MaybeBit(t: TemplateCell, e: Direction): bool {
    match e
    case Up => t.maybe.up
    case Right => t.maybe.right
    case Down => t.maybe.down
    case Left => t.maybe.left
  }

  /** The number of draws the "maybe walls" loop takes for one cell: one
      for a 0xff cell, one per maybe bit otherwise. */
  function DrawsFor(t: TemplateCell): (n: nat)
    ensures n <= 4
  {
    if Marked(t) then 1
    else Bit(MaybeBit(t, Up), 1) + Bit(MaybeBit(t, Down), 1) + Bit(MaybeBit(t, Left), 1) + Bit(MaybeBit(t, Right), 1)
  }

  /** The draw the NEED_WALL test of direction e reads when the cell's
      draws start at d. */
  function DrawOf(t: TemplateCell, e: Direction, d: nat): (n: nat)
    ensures !Marked(t) && MaybeBit(t, e) ==> d <= n < d + DrawsFor(t)
  {
    match e
    case Up => d
    case Down => d + Bit(MaybeBit(t, Up), 1)
    case Left => d + Bit(MaybeBit(t, Up), 1) + Bit(MaybeBit(t, Down), 1)
    case Right => d + Bit(MaybeBit(t, Up), 1) + Bit(MaybeBit(t, Down), 1) + Bit(MaybeBit(t, Left), 1)
  }

  /** Whether the NEED_WALL test of direction e passes, the cell's draws
      starting at d. */
  predicate Needs(t: TemplateCell, e: Direction, draws: seq<u8>, d: nat)
    requires !Marked(t) && d + DrawsFor(t) <= |draws|
  {
    MaybeBit(t, e) && draws[DrawOf(t, e, d)] % 4 == 0
  }

  /** A cell after the NEED_WALL(e) test that reads draw d when the maybe
      bit is set. */
  function TestedCell(x: Cell, t: TemplateCell, e: Direction, draws: seq<u8>, d: nat): Cell
    requires d + Bit(MaybeBit(t, e), 1) <= |draws|
  {
    WithWall(x, e, Wall(x, e) || (MaybeBit(t, e) && draws[d] % 4 == 0))
  }

  /** A cell after its four NEED_WALL tests, in the order of board.cpp:92-113. */
  function NeedCell(x: Cell, t: TemplateCell, draws: seq<u8>, d: nat): Cell
    requires !Marked(t) && d + DrawsFor(t) <= |draws|
  {
    var d1 := d + Bit(MaybeBit(t, Up), 1);
    var d2 := d1 + Bit(MaybeBit(t, Down), 1);
    var d3 := d2 + Bit(MaybeBit(t, Left), 1);
    TestedCell(TestedCell(TestedCell(TestedCell(x, t, Up, draws, d), t, Down, draws, d1), t, Left, draws, d2), t, Right, draws, d3)
  }

  /** NeedCell with its draw positions written out. */
  lemma NeedCellUnfold(x: Cell, t: TemplateCell, draws: seq<u8>, d: nat)
    requires !Marked(t) && d + DrawsFor(t) <= |draws|
    ensures var d1 := d + Bit(MaybeBit(t, Up), 1) + Bit(MaybeBit(t, Down), 1);
      NeedCell(x, t, draws, d) ==
      TestedCell(TestedCell(TestedCell(TestedCell(x, t, Up, draws, d), t, Down, draws, d + Bit(MaybeBit(t, Up), 1)),
        t, Left, draws, d1), t, Right, draws, d1 + Bit(MaybeBit(t, Left), 1))
  {
  }

  /** The tests read their draws in turn, so each wall of the cell is kept
      or set by its own test, whatever the order. */
  lemma NeedCellWalls(x: Cell, t: TemplateCell, draws: seq<u8>, d: nat)
    requires !Marked(t) && d + DrawsFor(t) <= |draws|
    ensures forall e :: Wall(NeedCell(x, t, draws, d), e) == (Wall(x, e) || Needs(t, e, draws, d))
  {
  }

  /** The wall the berzerk case r (0..3) sets for the 2x2 block whose top
      left is (i, j): the right wall of the top left cell, the down wall of
      the top right one, the right wall of the bottom left one, the down
      wall of the top left one (board.cpp:71-86). */
  function BerzerkRow(i: int, r: int): int { if r == 2 then i + 1 else i }
  function BerzerkColumn(j: int, r: int): int { if r == 1 then j + 1 else j }
  function BerzerkDirection(r: int): Direction { if r == 0 || r == 2 then Right else Down }

  /** The draws the "maybe walls" loop takes for the first n cells. */
  function MaybeDraws(template: seq<TemplateCell>, n: nat): (total: nat)
    requires n <= |template|
    ensures total <= 4 * n
  {
    if n == 0 then 0 else MaybeDraws(template, n - 1) + DrawsFor(template[n - 1])
  }

  lemma MaybeDrawsStep(template: seq<TemplateCell>, n: nat)
    requires n < |template|
    ensures MaybeDraws(template, n + 1) == MaybeDraws(template, n) + DrawsFor(template[n])
  {
  }

  lemma {:induction false} MaybeDrawsMonotone(template: seq<TemplateCell>, m: nat, n: nat)
    requires m <= n <= |template|
    ensures MaybeDraws(template, m) <= MaybeDraws(template, n)
    decreases n
  {
    if m < n {
      MaybeDrawsMonotone(template, m, n - 1);
    }
  }

  /** The template's assumption for the berzerk cells: a 0xff cell is never
      on the last row or column, so its 2x2 block is on the board. */
  ghost predicate BerzerkInRange(template: seq<TemplateCell>)
    requires |template| == Cells
  {
    forall r, c :: InGrid(r, c) && Marked(template[At(r, c)]) ==> r < LastRow && c < LastColumn
  }

  /** A cell with the outer walls of column c added. */
  function SidesOf(x: Cell, c: int): Cell {
    x.(left := x.left || c == 0, right := x.right || c == LastColumn)
  }

  /** A cell with the outer walls of row r added. */
  function EndsOf(x: Cell, r: int): Cell {
    x.(up := x.up || r == 0, down := x.down || r == LastRow)
  }

  /** `after` is `before` with every outer wall of the board added. */
  ghost predicate BorderedFrom(before: seq<Cell>, after: seq<Cell>)
    requires |before| == Cells && |after| == Cells
  {
    forall r, c :: InGrid(r, c) ==> after[At(r, c)] == EndsOf(SidesOf(before[At(r, c)], c), r)
  }

  /** Adding the outer walls walls the whole border, adds no other wall,
      and keeps symmetric walls symmetric. */
  lemma BorderedFacts(before: seq<Cell>, after: seq<Cell>)
    requires |before| == Cells && |after| == Cells && BorderedFrom(before, after)
    ensures Borders(after)
    ensures SameInterior(before, after) && Grows(before, after)
    ensures Symmetric(before) ==> Symmetric(after)
  {
    forall k, d | 0 <= k < Cells && Wall(before[k], d)
      ensures Wall(after[k], d)
    {
      var r, c := CellOf(k);
    }
    if Symmetric(before) {
      forall r, c | InGrid(r, c) && c < LastColumn
        ensures after[At(r, c)].right == after[At(r, c + 1)].left
      {
        assert after[At(r, c + 1)] == EndsOf(SidesOf(before[At(r, c + 1)], c + 1), r);
      }
      forall r, c | InGrid(r, c) && r < LastRow
        ensures after[At(r, c)].down == after[At(r + 1, c)].up
      {
        assert after[At(r + 1, c)] == EndsOf(SidesOf(before[At(r + 1, c)], c), r + 1);
      }
    }
  }

  /** occupied (board.cpp:211-219) on the row bitsets: outside the side
      and bottom edges counts as occupied, above the top edge as free,
      and an in-range cell tests its row's bit. */
  predicate OccupiedIn(bitset: seq<bv16>, masks: seq<bv16>, row: int, column: int)
    requires |bitset| == Height && |masks| == Width
  {
    if column < 0 || column > Width - 1 || row > Height - 1 then true
    else if row < 0 then false
    else Test(bitset[row], masks[column])
  }

  /** Occupying or freeing one cell leaves every other cell as it was. */
  lemma OtherCellsKept(bitset: seq<bv16>, masks: seq<bv16>, row: int, column: int, r: int, c: int)
    requires |bitset| == Height && ValidMasks(masks) && 0 <= row < Height && 0 <= column < Width
    requires r != row || c != column
    ensures OccupiedIn(bitset[row := Set(bitset[row], masks[column])], masks, r, c) == OccupiedIn(bitset, masks, r, c)
    ensures OccupiedIn(bitset[row := Clear(bitset[row], masks[column])], masks, r, c) == OccupiedIn(bitset, masks, r, c)
  {
    if r == row && 0 <= c < Width {
      if c < column {
        DisjointSymmetric(masks[c], masks[column]);
      }
      DisjointBits(bitset[row], masks[column], masks[c]);
    }
  }

  /** `|=`, `&= ~` and `&` of a row bitset with a column mask. */
  function Set(x: bv16, m: bv16): bv16 { x | m }
  function Clear(x: bv16, m: bv16): bv16 { x & !m }
  predicate Test(x: bv16, m: bv16) { x & m != 0 }

  /** Bits of another mask are unaffected by setting or clearing m. */
  lemma DisjointBits(x: bv16, m: bv16, m2: bv16)
    requires Disjoint(m, m2)
    ensures Set(x, m) & m2 == x & m2
    ensures Clear(x, m) & m2 == x & m2
  {
  }

  lemma DisjointSymmetric(a: bv16, b: bv16)
    requires Disjoint(a, b)
    ensures Disjoint(b, a)
  {
    assert a & b == b & a;
  }

  /** Setting a nonzero mask makes it test nonzero; clearing it makes it
      test zero. */
  lemma OwnBits(x: bv16, m: bv16)
    requires m != 0
    ensures Set(x, m) & m == m
    ensures Clear(x, m) & m == 0
  {
  }

  /** x.join(y) across an open wall between them (union-find.hpp:15-20):
      the walks stay witnesses, no class splits and x and y end up in one
      class. */
  method JoinAlong(ds: UnionFind.DisjointSet, x: int, y: int, ghost cs: seq<Cell>, ghost paths: seq<seq<int>>)
    returns (ghost paths2: seq<seq<int>>)
    requires ds.Valid() && ds.parent.Length == Cells && 0 <= x < Cells && 0 <= y < Cells
    requires |cs| == Cells && Witnessed(cs, ds.Classes(), paths) && Passage(cs, y, x)
    modifies ds.parent, ds`rank, ds`bound
    ensures ds.Valid() && Witnessed(cs, ds.Classes(), paths2)
    ensures Coarser(old(ds.Classes()), ds.Classes()) && ds.Classes()[x] == ds.Classes()[y]
  {
    ghost var classes := ds.Classes();
    JoinWitnessed(cs, classes, paths, x, y);
    paths2 := JoinedPaths(classes, paths, x, y);
    RelabelCoarser(classes, classes[y], classes[x]);
    ds.Join(x, y);
  }

  /** An open wall to the right or below means a shared class. */
  ghost predicate OpenLinkedAt(cs: seq<Cell>, classes: seq<nat>, r: int, c: int)
    requires |cs| == Cells && |classes| == Cells && InGrid(r, c)
  {
    (c < LastColumn && !cs[At(r, c)].right ==> classes[At(r, c)] == classes[At(r, c + 1)])
    && (r < LastRow && !cs[At(r, c)].down ==> classes[At(r, c)] == classes[At(r + 1, c)])
  }

  /** OpenLinkedAt for the first n cells in row-major order. */
  ghost predicate OpenLinked(cs: seq<Cell>, classes: seq<nat>, n: int) {
    |cs| == Cells && |classes| == Cells
    && forall r, c :: InGrid(r, c) && At(r, c) < n ==> OpenLinkedAt(cs, classes, r, c)
  }

  lemma OpenLinkedKept(cs: seq<Cell>, before: seq<nat>, after: seq<nat>, n: int)
    requires OpenLinked(cs, before, n) && Coarser(before, after)
    ensures OpenLinked(cs, after, n)
  {
    forall r, c | InGrid(r, c) && At(r, c) < n
      ensures OpenLinkedAt(cs, after, r, c)
    {
      assert OpenLinkedAt(cs, before, r, c);
    }
  }

  lemma OpenLinkedNext(cs: seq<Cell>, classes: seq<nat>, i: int, j: int)
    requires InGrid(i, j) && OpenLinked(cs, classes, At(i, j)) && OpenLinkedAt(cs, classes, i, j)
    ensures OpenLinked(cs, classes, At(i, j + 1))
  {
    forall r, c | InGrid(r, c) && At(r, c) < At(i, j + 1)
      ensures OpenLinkedAt(cs, classes, r, c)
    {
      if At(r, c) == At(i, j) {
        if r != i || c != j {
          AtInjective(r, c, i, j);
        }
      }
    }
  }

  /** 0, 1, ..., n - 1: what the bag-filling lambdas insert
      (board.cpp:145-154). */
  function Range(n: nat): (s: seq<u8>)
    requires n <= 0x100
    ensures |s| == n && forall k :: 0 <= k < n ==> s[k] == k
  {
    seq(n, k requires 0 <= k < n => k)
  }

  lemma RangeStep(n: nat)
    requires n < 0x100
    ensures Range(n + 1) == Range(n) + [n]
  {
    assert Range(n + 1)[..n] == Range(n);
  }

  /** The values of s are 0..n-1, each once. */
  ghost predicate IsRange(s: seq<u8>, n: nat)
    requires n <= 0x100
  {
    multiset(s) == multiset(Range(n))
  }

  /** A permutation of 0..n-1 holds only values below n, and all of them. */
  lemma RangeMembers(s: seq<u8>, n: nat)
    requires n <= 0x100 && IsRange(s, n)
    ensures |s| == n
    ensures forall a :: 0 <= a < |s| ==> s[a] < n
    ensures forall v :: 0 <= v < n ==> v in s
  {
    assert |multiset(s)| == |multiset(Range(n))|;
    forall a | 0 <= a < |s|
      ensures s[a] < n
    {
      assert s[a] in multiset(Range(n));
    }
    forall v | 0 <= v < n
      ensures v in s
    {
      assert Range(n)[v] == v;
      assert v in multiset(Range(n));
    }
  }

  /** The merge loop has handled the first `rows` rows of the row bag and,
      in the next one, the first `columns` columns of the column bag. */
  ghost predicate Merged(classes: seq<nat>, rowItems: seq<u8>, columnItems: seq<u8>, rows: int, columns: int) {
    |classes| == Cells && |rowItems| == Height && |columnItems| == Width
    && (forall a :: 0 <= a < Height ==> rowItems[a] < Height)
    && (forall b :: 0 <= b < Width ==> columnItems[b] < Width)
    && forall a, b :: 0 <= a < Height && 0 <= b < Width && (a < rows || (a == rows && b < columns)) ==>
      LinkedAt(classes, rowItems[a], columnItems[b])
  }

  lemma MergedKept(before: seq<nat>, after: seq<nat>, rowItems: seq<u8>, columnItems: seq<u8>, rows: int, columns: int)
    requires Merged(before, rowItems, columnItems, rows, columns) && Coarser(before, after)
    requires 0 <= rows < Height && 0 <= columns < Width
    requires LinkedAt(after, rowItems[rows], columnItems[columns])
    ensures Merged(after, rowItems, columnItems, rows, columns + 1)
  {
    forall a, b | 0 <= a < Height && 0 <= b < Width && (a < rows || (a == rows && b < columns))
      ensures LinkedAt(after, rowItems[a], columnItems[b])
    {
      LinkedKept(before, after, rowItems[a], columnItems[b]);
    }
  }

  /** Once every row of the bag has been merged with every column of the
      bag, and the bags hold every row and every column, every cell is
      linked to its neighbours. */
  lemma MergedAll(classes: seq<nat>, rowItems: seq<u8>, columnItems: seq<u8>)
    requires Merged(classes, rowItems, columnItems, Height, 0)
    requires IsRange(rowItems, Height) && IsRange(columnItems, Width)
    ensures AllLinked(classes)
  {
    RangeMembers(rowItems, Height);
    RangeMembers(columnItems, Width);
    forall r, c | InGrid(r, c)
      ensures LinkedAt(classes, r, c)
    {
      assert r in rowItems && c in columnItems;
      var a :| 0 <= a < Height && rowItems[a] == r;
      var b :| 0 <= b < Width && columnItems[b] == c;
    }
  }

  /** The bag-filling lambda of generate_maze (board.cpp:145-154): 0..N-1
      inserted in order, one draw each; afterwards the bag holds each of
      them once. */
  method FillBag(bag: Bag.Bag<u8>, draws: seq<u8>, d: nat)
    requires bag.Valid() && bag.index == 0 && bag.end == 0 && d + bag.N <= |draws|
    modifies bag`end, bag.items
    ensures bag.Valid() && bag.index == 0 && bag.end == 0
    ensures IsRange(bag.items[..], bag.N)
  {
    var i := 0;
    while i < bag.N
      invariant 0 <= i <= bag.N && bag.Valid() && bag.index == 0
      invariant bag.end == if i < bag.N then i else 0
      invariant multiset(bag.items[..i]) == multiset(Range(i))
    {
      bag.Insert(i, draws[d + i]);
      RangeStep(i);
      i := i + 1;
    }
    assert bag.items[..] == bag.items[..bag.N];
  }

  /** The cells as the template's required walls leave them on a
      reset board. */
  function RequiredGrid(template: seq<TemplateCell>): (cs: seq<Cell>)
    requires |template| == Cells
    ensures |cs| == Cells
    ensures forall k :: 0 <= k < Cells ==> cs[k] == if Marked(template[k]) then NoWalls else template[k].walls
  {
    seq(Cells, k requires 0 <= k < Cells => if Marked(template[k]) then NoWalls else template[k].walls)
  }
}
