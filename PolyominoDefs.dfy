/** The polyomino shapes of src/polyomino-defs.hpp and the collision test
    of src/polyomino-defs.cpp. A shape lists five block offsets from the
    piece's own (row, column); only the first `size` are blocks. The
    pointers between shapes (rotations) are indices into the shape table. */
module PolyominoDefs {
  import opened Common
  import opened Walls
  import Board

  /** One block offset, or one kick offset (polyomino-defs.hpp:24-30). */
  datatype Coordinates = Coordinates(deltaRow: s8, deltaColumn: s8)

  /** A PolyominoDef (polyomino-defs.hpp:43-54): its two rotations, the
      kicks tried after each rotation, and the blocks. */
  datatype PolyominoDef = PolyominoDef(
    leftRotation: nat, rightRotation: nat,
    leftKick: seq<Coordinates>, rightKick: seq<Coordinates>,
    size: u8, deltas: seq<Coordinates>)

  /** Arrays of five offsets, at most five blocks. */
  predicate WellFormed(d: PolyominoDef) {
    |d.deltas| == 5 && d.size <= 5 && |d.leftKick| == 5 && |d.rightKick| == 5
  }

  /** The `polyominos` table: every shape well formed, every rotation
      pointer inside the table. */
  predicate ValidTable(defs: seq<PolyominoDef>) {
    |defs| > 0
    && forall k :: 0 <= k < |defs| ==>
         WellFormed(defs[k]) && defs[k].leftRotation < |defs| && defs[k].rightRotation < |defs|
  }

  /** Rotating left undoes rotating right and the other way round. */
  predicate RotationsInverse(defs: seq<PolyominoDef>)
    requires ValidTable(defs)
  {
    forall k :: 0 <= k < |defs| ==>
      defs[defs[k].rightRotation].leftRotation == k && defs[defs[k].leftRotation].rightRotation == k
  }

  /** The row of block i when the piece sits at (row, column): an int sum
      passed on as an s8 argument. */
  function BlockRow(d: PolyominoDef, row: s8, i: nat): s8
    requires WellFormed(d) && i < 5
  {
    ToS8(row + d.deltas[i].deltaRow)
  }

  function BlockColumn(d: PolyominoDef, column: s8, i: nat): s8
    requires WellFormed(d) && i < 5
  {
    ToS8(column + d.deltas[i].deltaColumn)
  }

  /** Board::occupied of block i. */
  predicate BlockOccupied(bitset: seq<bv16>, masks: seq<bv16>, d: PolyominoDef, row: s8, column: s8, i: nat)
    requires |bitset| == Height && |masks| == Width && WellFormed(d) && i < 5
  {
    Board.OccupiedIn(bitset, masks, BlockRow(d, row, i), BlockColumn(d, column, i))
  }

  /** The loop of collide from block i on, with its early return. */
  function CollideFrom(bitset: seq<bv16>, masks: seq<bv16>, d: PolyominoDef, row: s8, column: s8, i: nat): (r: bool)
    requires |bitset| == Height && |masks| == Width && WellFormed(d) && i <= d.size
    ensures r <==> exists k :: i <= k < d.size && BlockOccupied(bitset, masks, d, row, column, k)
    decreases d.size - i
  {
    if i == d.size then false
    else if BlockOccupied(bitset, masks, d, row, column, i) then true
    else CollideFrom(bitset, masks, d, row, column, i + 1)
  }

  /** collide (polyomino-defs.cpp:3-12): some one of the first `size`
      blocks is on an occupied cell; the offsets past `size` are never
      looked at, and a shape of size 0 collides with nothing. */
  function Collide(bitset: seq<bv16>, masks: seq<bv16>, d: PolyominoDef, row: s8, column: s8): (r: bool)
    requires |bitset| == Height && |masks| == Width && WellFormed(d)
    ensures r <==> exists k :: 0 <= k < d.size && BlockOccupied(bitset, masks, d, row, column, k)
    ensures d.size == 0 ==> !r
  {
    CollideFrom(bitset, masks, d, row, column, 0)
  }

  /** The offsets past `size` do not matter: two shapes with the same
      first `size` offsets collide alike. */
  lemma CollideIgnoresUnused(bitset: seq<bv16>, masks: seq<bv16>, d: PolyominoDef, e: PolyominoDef, row: s8, column: s8)
    requires |bitset| == Height && |masks| == Width && WellFormed(d) && WellFormed(e)
    requires d.size == e.size && d.deltas[..d.size] == e.deltas[..e.size]
    ensures Collide(bitset, masks, d, row, column) == Collide(bitset, masks, e, row, column)
  {
    forall k | 0 <= k < d.size
      ensures BlockOccupied(bitset, masks, d, row, column, k) == BlockOccupied(bitset, masks, e, row, column, k)
    {
      assert d.deltas[k] == d.deltas[..d.size][k];
    }
  }

  /** A piece whose blocks all lie above the board, within its columns,
      collides with nothing: rows above the top edge read as free. */
  lemma AboveBoardNeverCollides(bitset: seq<bv16>, masks: seq<bv16>, d: PolyominoDef, row: s8, column: s8)
    requires |bitset| == Height && |masks| == Width && WellFormed(d)
    requires forall k :: 0 <= k < d.size ==>
      BlockRow(d, row, k) < 0 && 0 <= BlockColumn(d, column, k) < Width
    ensures !Collide(bitset, masks, d, row, column)
  {
  }
}
