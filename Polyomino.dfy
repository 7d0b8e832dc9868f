/** The falling piece of src/polyomino.cpp: spawning from the shuffle bag,
    rotation with wall kicks, gravity, sideways steps, and locking the
    blocks into the board's occupancy bitset. */
module Polyomino {
  import opened Common
  import Walls
  import Board
  import Bag
  import Input
  import opened PolyominoDefs
  import opened Directions

  /** MAX_GROUNDED_TIMER (polyomino.hpp:10). */
  const MaxGroundedTimer: u8 := 2
  /** SIDEWAYS_INITIAL_DELAY and SIDEWAYS_DELAY (polyomino.hpp:14-15). */
  const SidewaysInitialDelay: s8 := 16
  const SidewaysDelay: s8 := 6
  /** The column a piece spawns in (polyomino.cpp:43). */
  const SpawnColumn: s8 := 5
  /** The drop timer's value while up is held (polyomino.cpp:85). */
  const FastDrop: u8 := 200

  /** The highest block offset, starting from 0: the range-for of spawn
      over all five offsets (polyomino.cpp:50-54), up to offset n. */
  function MaxDeltaRow(ds: seq<Coordinates>, n: nat): (m: s8)
    requires n <= |ds|
    ensures m >= 0 && forall k :: 0 <= k < n ==> ds[k].deltaRow <= m
    ensures m == 0 || exists k :: 0 <= k < n && ds[k].deltaRow == m
  {
    if n == 0 then 0
    else
      var m := MaxDeltaRow(ds, n - 1);
      if ds[n - 1].deltaRow > m then ds[n - 1].deltaRow else m
  }

  /** The row a shape spawns at: one above its lowest block's offset. */
  function SpawnRow(d: PolyominoDef): (r: s8)
    requires WellFormed(d)
    ensures r < 0 && forall k :: 0 <= k < 5 ==> r + d.deltas[k].deltaRow < 0
  {
    -(MaxDeltaRow(d.deltas, 5) + 1)
  }

  /** The loop of spawn over the five offsets (polyomino.cpp:50-54). */
  method HighestDelta(deltas: seq<Coordinates>) returns (maxDelta: s8)
    requires |deltas| == 5
    ensures maxDelta == MaxDeltaRow(deltas, 5)
  {
    maxDelta := 0;
    var i := 0;
    while i < 5
      invariant 0 <= i <= 5 && maxDelta == MaxDeltaRow(deltas, i)
    {
      if deltas[i].deltaRow > maxDelta {
        maxDelta := deltas[i].deltaRow;
      }
      i := i + 1;
    }
  }

  /** A shape whose offsets stay within a few cells of its origin. */
  predicate Compact(d: PolyominoDef)
    requires WellFormed(d)
  {
    forall k :: 0 <= k < 5 ==> -8 <= d.deltas[k].deltaRow <= 8 && -5 <= d.deltas[k].deltaColumn <= 6
  }

  /** A freshly spawned compact piece lies wholly above the board and
      collides with nothing, whatever the board holds. */
  lemma SpawnNeverCollides(bitset: seq<bv16>, masks: seq<bv16>, d: PolyominoDef)
    requires |bitset| == Walls.Height && |masks| == Walls.Width && WellFormed(d) && Compact(d)
    ensures !Collide(bitset, masks, d, SpawnRow(d), SpawnColumn)
  {
    var row := SpawnRow(d);
    forall k | 0 <= k < d.size
      ensures BlockRow(d, row, k) < 0 && 0 <= BlockColumn(d, SpawnColumn, k) < Walls.Width
    {
      assert -17 <= row + d.deltas[k].deltaRow < 0;
    }
    AboveBoardNeverCollides(bitset, masks, d, row, SpawnColumn);
  }

  /** The lowest block offset among the first n, starting from 2: the loop
      of can_be_frozen (polyomino.cpp:219-225). */
  function MinDeltaRow(d: PolyominoDef, n: nat): (m: int)
    requires WellFormed(d) && n <= d.size
    ensures m <= 2 && forall k :: 0 <= k < n ==> m <= d.deltas[k].deltaRow
    ensures m == 2 || exists k :: 0 <= k < n && d.deltas[k].deltaRow == m
  {
    if n == 0 then 2
    else
      var m := MinDeltaRow(d, n - 1);
      if d.deltas[n - 1].deltaRow < m then d.deltas[n - 1].deltaRow else m
  }

  /** can_be_frozen's verdict: row + min(2, lowest offset) >= 0. */
  predicate Freezable(d: PolyominoDef, row: s8)
    requires WellFormed(d)
  {
    row + MinDeltaRow(d, d.size) >= 0
  }

  /** A freezable piece has every block on or below the top row; the
      converse holds when some block's offset is at most 2, the start
      value of the minimum. */
  lemma FreezableMeansInside(d: PolyominoDef, row: s8)
    requires WellFormed(d)
    ensures Freezable(d, row) ==> forall k :: 0 <= k < d.size ==> row + d.deltas[k].deltaRow >= 0
    ensures (exists k :: 0 <= k < d.size && d.deltas[k].deltaRow <= 2)
            && (forall k :: 0 <= k < d.size ==> row + d.deltas[k].deltaRow >= 0)
            ==> Freezable(d, row)
  {
    var m := MinDeltaRow(d, d.size);
    if (exists k :: 0 <= k < d.size && d.deltas[k].deltaRow <= 2)
       && (forall k :: 0 <= k < d.size ==> row + d.deltas[k].deltaRow >= 0) {
      if m == 2 {
        var k :| 0 <= k < d.size && d.deltas[k].deltaRow <= 2;
        assert row + 2 <= row + d.deltas[k].deltaRow;
      } else {
        var k :| 0 <= k < d.size && d.deltas[k].deltaRow == m;
        assert row + d.deltas[k].deltaRow >= 0;
      }
    }
  }

  /** The first kick, from the i-th on, at which the shape does not
      collide: the loop of able_to_kick (polyomino.cpp:60-70). */
  function FirstKick(bitset: seq<bv16>, masks: seq<bv16>, d: PolyominoDef, kicks: seq<Coordinates>,
                     row: s8, column: s8, i: nat): (k: Option<nat>)
    requires |bitset| == Walls.Height && |masks| == Walls.Width && WellFormed(d) && |kicks| == 5 && i <= 5
    ensures k.Some? ==> i <= k.value < 5 && !KickCollides(bitset, masks, d, kicks, row, column, k.value)
    ensures forall j :: i <= j < 5 && (k.None? || j < k.value) ==> KickCollides(bitset, masks, d, kicks, row, column, j)
    decreases 5 - i
  {
    if i == 5 then Option.None
    else if !KickCollides(bitset, masks, d, kicks, row, column, i) then Some(i)
    else FirstKick(bitset, masks, d, kicks, row, column, i + 1)
  }

  predicate KickCollides(bitset: seq<bv16>, masks: seq<bv16>, d: PolyominoDef, kicks: seq<Coordinates>,
                         row: s8, column: s8, j: nat)
    requires |bitset| == Walls.Height && |masks| == Walls.Width && WellFormed(d) && |kicks| == 5 && j < 5
  {
    Collide(bitset, masks, d, KickRow(kicks, row, j), KickColumn(kicks, column, j))
  }

  function KickRow(kicks: seq<Coordinates>, row: s8, j: nat): s8
    requires |kicks| == 5 && j < 5
  {
    ToS8(row + kicks[j].deltaRow)
  }

  function KickColumn(kicks: seq<Coordinates>, column: s8, j: nat): s8
    requires |kicks| == 5 && j < 5
  {
    ToS8(column + kicks[j].deltaColumn)
  }

  /** The sideways part of handle_input (polyomino.cpp:88-112): a press
      starts the initial delay, a hold counts the timer down and repeats
      the step each time it runs out; left wins over right over down. */
  function SidewaysInput(pressed: Input.Buttons, held: Input.Buttons, timer: s8, dir: Direction): (s8, Direction) {
    if pressed.left then (SidewaysInitialDelay, Left)
    else if held.left then Countdown(timer, dir, Left)
    else if pressed.right then (SidewaysInitialDelay, Right)
    else if held.right then Countdown(timer, dir, Right)
    else if pressed.down then (SidewaysInitialDelay, Down)
    else if held.down then Countdown(timer, dir, Down)
    else (timer, dir)
  }

  /** `if (--move_timer <= 0) { move_timer = SIDEWAYS_DELAY; ... }`. */
  function Countdown(timer: s8, dir: Direction, step: Direction): (s8, Direction) {
    var t := ToS8(timer - 1);
    if t <= 0 then (SidewaysDelay, step) else (t, dir)
  }

  /** The move timer stays within 0..16, and a step is requested only in
      the direction whose button is down. */
  lemma SidewaysInputBounds(pressed: Input.Buttons, held: Input.Buttons, timer: s8, dir: Direction)
    requires 0 <= timer <= SidewaysInitialDelay
    ensures var (t, d) := SidewaysInput(pressed, held, timer, dir);
      0 <= t <= SidewaysInitialDelay
      && (d != dir ==>
            (d == Left && (pressed.left || held.left))
            || (d == Right && (pressed.right || held.right))
            || (d == Down && (pressed.down || held.down)))
  {
  }

  /** Every block of the first n at (r, c). */
  predicate BlockAmong(d: PolyominoDef, row: s8, column: s8, n: nat, r: int, c: int)
    requires WellFormed(d) && n <= 5
  {
    exists k :: 0 <= k < n && BlockRow(d, row, k) == r && BlockColumn(d, column, k) == c
  }

  /** The occupancy after the first n blocks were locked: a cell of the
      board is occupied iff it was before or one of those blocks is on it. */
  ghost predicate FrozenUpTo(before: seq<bv16>, after: seq<bv16>, masks: seq<bv16>,
                             d: PolyominoDef, row: s8, column: s8, n: nat)
    requires |before| == Walls.Height && |after| == Walls.Height && |masks| == Walls.Width && WellFormed(d) && n <= 5
  {
    forall r, c :: 0 <= r < Walls.Height && 0 <= c < Walls.Width ==>
      (Board.OccupiedIn(after, masks, r, c) <==> Board.OccupiedIn(before, masks, r, c) || BlockAmong(d, row, column, n, r, c))
  }

  /** Locking block i on a free cell of the board. */
  lemma FrozenStepOccupy(before: seq<bv16>, cur: seq<bv16>, masks: seq<bv16>, d: PolyominoDef, row: s8, column: s8, i: nat)
    requires |before| == Walls.Height && |cur| == Walls.Height && Board.ValidMasks(masks) && WellFormed(d) && i < 5
    requires FrozenUpTo(before, cur, masks, d, row, column, i)
    requires 0 <= BlockRow(d, row, i) < Walls.Height && 0 <= BlockColumn(d, column, i) < Walls.Width
    ensures var br := BlockRow(d, row, i); var bc := BlockColumn(d, column, i);
      FrozenUpTo(before, cur[br := Board.Set(cur[br], masks[bc])], masks, d, row, column, i + 1)
  {
    var br := BlockRow(d, row, i);
    var bc := BlockColumn(d, column, i);
    var next := cur[br := Board.Set(cur[br], masks[bc])];
    forall r, c | 0 <= r < Walls.Height && 0 <= c < Walls.Width
      ensures Board.OccupiedIn(next, masks, r, c) <==> Board.OccupiedIn(before, masks, r, c) || BlockAmong(d, row, column, i + 1, r, c)
    {
      if r == br && c == bc {
        Board.OwnBits(cur[br], masks[bc]);
      } else {
        Board.OtherCellsKept(cur, masks, br, bc, r, c);
        assert BlockAmong(d, row, column, i + 1, r, c) == BlockAmong(d, row, column, i, r, c);
      }
    }
  }

  /** Passing over block i: it is occupied already, or above the board,
      or off its sides or bottom. */
  lemma FrozenStepSkip(before: seq<bv16>, cur: seq<bv16>, masks: seq<bv16>, d: PolyominoDef, row: s8, column: s8, i: nat)
    requires |before| == Walls.Height && |cur| == Walls.Height && |masks| == Walls.Width && WellFormed(d) && i < 5
    requires FrozenUpTo(before, cur, masks, d, row, column, i)
    requires Board.OccupiedIn(cur, masks, BlockRow(d, row, i), BlockColumn(d, column, i)) || BlockRow(d, row, i) < 0
    ensures FrozenUpTo(before, cur, masks, d, row, column, i + 1)
  {
    forall r, c | 0 <= r < Walls.Height && 0 <= c < Walls.Width
      ensures Board.OccupiedIn(cur, masks, r, c) <==> Board.OccupiedIn(before, masks, r, c) || BlockAmong(d, row, column, i + 1, r, c)
    {
      if !(r == BlockRow(d, row, i) && c == BlockColumn(d, column, i)) {
        assert BlockAmong(d, row, column, i + 1, r, c) == BlockAmong(d, row, column, i, r, c);
      }
    }
  }

  class Polyomino {
    const board: Board.Board
    /** The `polyominos` shape table. */
    const defs: seq<PolyominoDef>
    /** The static `pieces` bag of shape numbers. */
    const pieces: Bag.Bag<u8>
    /** The current shape; NULL until the first spawn. */
    var definition: Option<nat>
    var next: nat
    var secondNext: nat
    var row: s8
    var column: s8
    var dropTimer: u8
    var moveTimer: s8
    var sidewaysDirection: Direction
    var groundedTimer: u8
    var active: bool

    ghost predicate Valid()
      reads this, board, pieces, pieces.items
    {
      board.Valid() && ValidTable(defs) && pieces.Valid()
      && board.occupiedBitset as object != pieces.items
      && (forall k :: 0 <= k < pieces.N ==> pieces.items[k] < |defs|)
      && next < |defs| && secondNext < |defs|
      && (definition.Some? ==> definition.value < |defs|)
      && (active ==> definition.Some?)
    }

    /** The current shape. */
    function Shape(): (d: PolyominoDef)
      reads this, board, pieces, pieces.items
      requires Valid() && definition.Some?
      ensures WellFormed(d)
    {
      defs[definition.value]
    }

    /** definition->collide(board, r, c). */
    predicate Collides(r: s8, c: s8)
      reads this, board, board.occupiedBitset, pieces, pieces.items
      requires Valid() && definition.Some?
    {
      Collide(board.occupiedBitset[..], board.masks, Shape(), r, c)
    }

    /** The constructor (polyomino.cpp:34-36): no current shape, the next
        two taken from the bag, inactive. */
    constructor(board: Board.Board, defs: seq<PolyominoDef>, pieces: Bag.Bag<u8>)
      requires board.Valid() && ValidTable(defs) && pieces.Valid()
      requires board.occupiedBitset as object != pieces.items
      requires forall k :: 0 <= k < pieces.N ==> pieces.items[k] < |defs|
      modifies pieces`index
      ensures Valid() && this.board == board && this.defs == defs && this.pieces == pieces
      ensures definition == Option.None && !active
      ensures next == pieces.items[old(pieces.index)]
      ensures secondNext == pieces.items[Advance(old(pieces.index), pieces.N)]
      ensures pieces.index == Advance(Advance(old(pieces.index), pieces.N), pieces.N)
    {
      this.board := board;
      this.defs := defs;
      this.pieces := pieces;
      definition := Option.None;
      active := false;
      new;
      var n := pieces.Take();
      next := n;
      var s := pieces.Take();
      secondNext := s;
    }

    /** spawn (polyomino.cpp:38-56): the queue moves up by one, a new
        shape is drawn from the bag, and the piece starts in column 5 with
        its lowest block just above the board. */
    method Spawn()
      requires Valid()
      modifies this`active, this`groundedTimer, this`moveTimer, this`sidewaysDirection, this`column, this`row,
               this`definition, this`next, this`secondNext, pieces`index
      ensures Valid() && active && row == SpawnRow(Shape()) && column == SpawnColumn
      ensures groundedTimer == 0 && moveTimer == 0 && sidewaysDirection == Direction.None
      ensures definition == Some(old(next)) && next == old(secondNext)
      ensures secondNext == pieces.items[old(pieces.index)] && pieces.index == Advance(old(pieces.index), pieces.N)
      ensures dropTimer == old(dropTimer)
    {
      ShiftQueue();
      active := true;
      groundedTimer := 0;
      moveTimer := 0;
      sidewaysDirection := Direction.None;
      column := SpawnColumn;
      PlaceAbove();
    }

    /** The starting row (polyomino.cpp:44, 50-55): one above the lowest
        block's offset, so every block starts above the board. */
    method PlaceAbove()
      requires Valid() && definition.Some?
      modifies this`row
      ensures row == SpawnRow(Shape())
    {
      row := 0;
      var maxDelta := HighestDelta(Shape().deltas);
      var above: int := maxDelta as int + 1;
      row := row - above;
    }

    /** The queue of shapes moves up (polyomino.cpp:46-48): the next shape
        becomes current, the one after it next, and a new one is drawn. */
    method ShiftQueue()
      requires Valid()
      modifies this`definition, this`next, this`secondNext, pieces`index
      ensures Valid() && definition == Some(old(next)) && next == old(secondNext)
      ensures secondNext == pieces.items[old(pieces.index)] && pieces.index == Advance(old(pieces.index), pieces.N)
    {
      definition := Some(next);
      next := secondNext;
      var drawn := pieces.Take();
      secondNext := drawn;
    }

    /** able_to_kick (polyomino.cpp:58-71): the piece moves by the first
        kick at which it fits and the answer is yes; when none fits it
        stays where it is. */
    method AbleToKick(kicks: seq<Coordinates>) returns (kicked: bool)
      requires Valid() && definition.Some? && |kicks| == 5
      modifies this`row, this`column
      ensures Valid()
      ensures var k := FirstKick(board.occupiedBitset[..], board.masks, Shape(), kicks, old(row), old(column), 0);
        kicked == k.Some?
        && (kicked ==> row == KickRow(kicks, old(row), k.value) && column == KickColumn(kicks, old(column), k.value))
        && (!kicked ==> row == old(row) && column == old(column))
    {
      var i := 0;
      while i < 5
        invariant 0 <= i <= 5 && row == old(row) && column == old(column)
        invariant FirstKick(board.occupiedBitset[..], board.masks, Shape(), kicks, row, column, 0)
               == FirstKick(board.occupiedBitset[..], board.masks, Shape(), kicks, row, column, i)
      {
        var newRow := ToS8(row + kicks[i].deltaRow);
        var newColumn := ToS8(column + kicks[i].deltaColumn);
        if !Collides(newRow, newColumn) {
          row := newRow;
          column := newColumn;
          return true;
        }
        i := i + 1;
      }
      return false;
    }

    /** The rotation part of handle_input (polyomino.cpp:114-134): turn,
        then try the new shape's kicks; when none fits, turn back the
        other way, and the piece has not moved. */
    method Rotate(clockwise: bool) returns (kicked: bool)
      requires Valid() && active
      modifies this`definition, this`row, this`column
      ensures Valid() && active
      ensures var d := old(definition.value);
        var turned := if clockwise then defs[d].rightRotation else defs[d].leftRotation;
        var kicks := if clockwise then defs[turned].rightKick else defs[turned].leftKick;
        var k := FirstKick(board.occupiedBitset[..], board.masks, defs[turned], kicks, old(row), old(column), 0);
        kicked == k.Some?
        && (kicked ==> definition == Some(turned) && row == KickRow(kicks, old(row), k.value)
                       && column == KickColumn(kicks, old(column), k.value))
        && (!kicked ==> row == old(row) && column == old(column)
                        && definition == Some(if clockwise then defs[turned].leftRotation else defs[turned].rightRotation))
      ensures !kicked && RotationsInverse(defs) ==> definition == old(definition)
    {
      var d := definition.value;
      if clockwise {
        definition := Some(defs[d].rightRotation);
        kicked := AbleToKick(defs[definition.value].rightKick);
        if !kicked {
          definition := Some(defs[definition.value].leftRotation);
        }
      } else {
        definition := Some(defs[d].leftRotation);
        kicked := AbleToKick(defs[definition.value].leftKick);
        if !kicked {
          definition := Some(defs[definition.value].rightRotation);
        }
      }
    }

    /** handle_input (polyomino.cpp:73-135). An inactive piece hands the
        pad back to the player; otherwise up speeds the drop, the
        direction buttons request sideways steps, and A or B rotate. */
    method HandleInput(mode: Input.InputMode, pressed: Input.Buttons, held: Input.Buttons)
      returns (newMode: Input.InputMode)
      requires Valid()
      modifies this`definition, this`row, this`column, this`dropTimer, this`moveTimer, this`sidewaysDirection
      ensures Valid() && active == old(active)
      ensures !active ==> newMode == Input.PlayerMode
      ensures newMode == (if active then mode else Input.PlayerMode)
      ensures newMode != Input.PolyominoMode ==>
        definition == old(definition) && row == old(row) && column == old(column)
        && dropTimer == old(dropTimer) && moveTimer == old(moveTimer) && sidewaysDirection == old(sidewaysDirection)
      ensures newMode == Input.PolyominoMode ==>
        dropTimer == (if held.up then FastDrop else old(dropTimer))
        && (moveTimer, sidewaysDirection) == SidewaysInput(pressed, held, old(moveTimer), old(sidewaysDirection))
      ensures newMode == Input.PolyominoMode && !pressed.a && !pressed.b ==>
        definition == old(definition) && row == old(row) && column == old(column)
    {
      newMode := mode;
      if !active {
        if newMode == Input.PolyominoMode {
          newMode := Input.PlayerMode;
        }
      }
      if newMode != Input.PolyominoMode {
        return;
      }
      if held.up {
        dropTimer := FastDrop;
      }
      SidewaysRequest(pressed, held);
      if pressed.a {
        var _ := Rotate(true);
      } else if pressed.b {
        var _ := Rotate(false);
      }
    }

    /** The sideways requests of handle_input (polyomino.cpp:88-112). */
    method SidewaysRequest(pressed: Input.Buttons, held: Input.Buttons)
      modifies this`moveTimer, this`sidewaysDirection
      ensures (moveTimer, sidewaysDirection) == SidewaysInput(pressed, held, old(moveTimer), old(sidewaysDirection))
    {
      if pressed.left {
        moveTimer := SidewaysInitialDelay;
        sidewaysDirection := Left;
      } else if held.left {
        moveTimer := ToS8(moveTimer - 1);
        if moveTimer <= 0 {
          moveTimer := SidewaysDelay;
          sidewaysDirection := Left;
        }
      } else if pressed.right {
        moveTimer := SidewaysInitialDelay;
        sidewaysDirection := Right;
      } else if held.right {
        moveTimer := ToS8(moveTimer - 1);
        if moveTimer <= 0 {
          moveTimer := SidewaysDelay;
          sidewaysDirection := Right;
        }
      } else if pressed.down {
        moveTimer := SidewaysInitialDelay;
        sidewaysDirection := Down;
      } else if held.down {
        moveTimer := ToS8(moveTimer - 1);
        if moveTimer <= 0 {
          moveTimer := SidewaysDelay;
          sidewaysDirection := Down;
        }
      }
    }

    /** can_be_frozen (polyomino.cpp:217-227). */
    method CanBeFrozen() returns (r: bool)
      requires Valid() && definition.Some?
      ensures r == Freezable(Shape(), row)
    {
      var d := Shape();
      var minDelta: int := 2;
      var i: u8 := 0;
      while i < d.size
        invariant i <= d.size && minDelta == MinDeltaRow(d, i)
      {
        if d.deltas[i].deltaRow < minDelta {
          minDelta := d.deltas[i].deltaRow;
        }
        i := i + 1;
      }
      return row + minDelta >= 0;
    }

    /** The occupancy part of freeze_blocks (polyomino.cpp:229-259): the
        piece goes inactive, and a board cell is occupied afterwards iff it
        was before or a block of the piece is on it. */
    method FreezeBlocks()
      requires Valid() && definition.Some?
      modifies this`active, board.occupiedBitset
      ensures Valid() && !active && definition == old(definition) && row == old(row) && column == old(column)
      ensures FrozenUpTo(old(board.occupiedBitset[..]), board.occupiedBitset[..], board.masks, Shape(), row, column, Shape().size)
    {
      active := false;
      var d := Shape();
      ghost var before := board.occupiedBitset[..];
      var i: u8 := 0;
      while i < d.size
        modifies board.occupiedBitset
        invariant i <= d.size
        invariant FrozenUpTo(before, board.occupiedBitset[..], board.masks, d, row, column, i)
      {
        var blockRow := ToS8(row + d.deltas[i].deltaRow);
        var blockColumn := ToS8(column + d.deltas[i].deltaColumn);
        if !board.Occupied(blockRow, blockColumn) && blockRow >= 0 {
          FrozenStepOccupy(before, board.occupiedBitset[..], board.masks, d, row, column, i);
          board.Occupy(blockRow, blockColumn);
        } else {
          FrozenStepSkip(before, board.occupiedBitset[..], board.masks, d, row, column, i);
        }
        i := i + 1;
      }
    }

    /** The state a lock leaves from the occupancy bits0 it started with
        (polyomino.cpp:147-153 and 178-184): a piece inside the board is
        frozen into it and goes inactive; otherwise it fails to place and
        nothing changes. */
    ghost predicate LockOutcome(bits0: seq<bv16>, placed: bool, failed: bool)
      reads this, board, board.occupiedBitset, pieces, pieces.items
      requires Valid() && definition.Some? && |bits0| == Walls.Height
    {
      && placed == Freezable(Shape(), row) && failed == !placed
      && (placed ==> !active && FrozenUpTo(bits0, board.occupiedBitset[..], board.masks, Shape(), row, column, Shape().size))
      && (failed ==> active && board.occupiedBitset[..] == bits0)
    }

    /** A piece that cannot fall any further (polyomino.cpp:147-153 and
        178-184), as LockOutcome describes it. */
    method Lock() returns (placed: bool, failed: bool)
      requires Valid() && active
      modifies this`active, board.occupiedBitset
      ensures Valid() && definition == old(definition) && row == old(row) && column == old(column)
      ensures LockOutcome(old(board.occupiedBitset[..]), placed, failed)
    {
      placed, failed := false, false;
      var frozen := CanBeFrozen();
      if frozen {
        FreezeBlocks();
        placed := true;
      } else {
        failed := true;
      }
    }

    /** The state the drop-timer part of update (polyomino.cpp:142-162)
        leaves, from the timers, row and occupancy it started with. When the
        timer runs out the piece falls one row if it can; a grounded piece
        waits MAX_GROUNDED_TIMER more drops and then locks, which is
        update's early return `stop`. */
    ghost predicate GravityOutcome(dropFrames: u8, bits0: seq<bv16>, dropTimer0: u8, row0: s8, groundedTimer0: u8,
                                   stop: bool, placed: bool, failed: bool)
      reads this, board, board.occupiedBitset, pieces, pieces.items
      requires Valid() && definition.Some? && |bits0| == Walls.Height
    {
      if dropTimer0 < dropFrames then
        dropTimer == dropTimer0 + 1 && row == row0 && groundedTimer == groundedTimer0
        && active && !stop && !placed && !failed && board.occupiedBitset[..] == bits0
      else if !Collide(bits0, board.masks, Shape(), ToS8(row0 + 1), column) then
        dropTimer == 0 && row == ToS8(row0 + 1) && groundedTimer == 0
        && active && !stop && !placed && !failed && board.occupiedBitset[..] == bits0
      else if groundedTimer0 < MaxGroundedTimer then
        dropTimer == 0 && row == row0 && groundedTimer == groundedTimer0 + 1
        && active && !stop && !placed && !failed && board.occupiedBitset[..] == bits0
      else
        dropTimer == 0 && row == row0 && groundedTimer == 0 && stop && LockOutcome(bits0, placed, failed)
    }

    /** The drop-timer part of update (polyomino.cpp:142-162), as
        GravityOutcome describes it. */
    method Gravity(dropFrames: u8) returns (stop: bool, placed: bool, failed: bool)
      requires Valid() && active
      modifies this`dropTimer, this`row, this`groundedTimer, this`active, board.occupiedBitset
      ensures Valid() && definition == old(definition) && column == old(column)
      ensures GravityOutcome(dropFrames, old(board.occupiedBitset[..]), old(dropTimer), old(row), old(groundedTimer),
                             stop, placed, failed)
    {
      stop, placed, failed := false, false, false;
      var elapsed := dropTimer >= dropFrames;
      dropTimer := ToU8(dropTimer + 1);
      if elapsed {
        dropTimer := 0;
        if Collides(ToS8(row + 1), column) {
          if groundedTimer >= MaxGroundedTimer {
            groundedTimer := 0;
            placed, failed := Lock();
            stop := true;
          } else {
            groundedTimer := groundedTimer + 1;
          }
        } else {
          row := ToS8(row + 1);
          groundedTimer := 0;
        }
      }
    }

    /** The state the sideways part of update (polyomino.cpp:164-191)
        leaves, from the request, occupancy, row and column it started with:
        a left or right step happens when the piece fits there and is
        consumed either way; a down step falls a row, or locks the piece
        where it cannot fall, the request then staying pending; any other
        request is left alone. */
    ghost predicate SidewaysOutcome(dir0: Direction, bits0: seq<bv16>, row0: s8, column0: s8, placed: bool, failed: bool)
      reads this, board, board.occupiedBitset, pieces, pieces.items
      requires Valid() && definition.Some? && |bits0| == Walls.Height
    {
      match dir0
      case Left =>
        column == (if Collide(bits0, board.masks, Shape(), row0, ToS8(column0 - 1)) then column0 else ToS8(column0 - 1))
        && row == row0 && sidewaysDirection == Direction.None && active && !placed && !failed
        && board.occupiedBitset[..] == bits0
      case Right =>
        column == (if Collide(bits0, board.masks, Shape(), row0, ToS8(column0 + 1)) then column0 else ToS8(column0 + 1))
        && row == row0 && sidewaysDirection == Direction.None && active && !placed && !failed
        && board.occupiedBitset[..] == bits0
      case Down =>
        if !Collide(bits0, board.masks, Shape(), ToS8(row0 + 1), column0) then
          row == ToS8(row0 + 1) && column == column0 && sidewaysDirection == Direction.None
          && active && !placed && !failed && board.occupiedBitset[..] == bits0
        else
          row == row0 && column == column0 && sidewaysDirection == Direction.Down && LockOutcome(bits0, placed, failed)
      case _ =>
        row == row0 && column == column0 && sidewaysDirection == dir0
        && active && !placed && !failed && board.occupiedBitset[..] == bits0
    }

    /** The sideways part of update (polyomino.cpp:164-191), as
        SidewaysOutcome describes it. */
    method Sideways() returns (placed: bool, failed: bool)
      requires Valid() && active
      modifies this`row, this`column, this`sidewaysDirection, this`active, board.occupiedBitset
      ensures Valid() && definition == old(definition)
      ensures SidewaysOutcome(old(sidewaysDirection), old(board.occupiedBitset[..]), old(row), old(column), placed, failed)
    {
      placed, failed := false, false;
      match sidewaysDirection {
        case Left =>
          if !Collides(row, ToS8(column - 1)) {
            column := ToS8(column - 1);
          }
          sidewaysDirection := Direction.None;
        case Right =>
          if !Collides(row, ToS8(column + 1)) {
            column := ToS8(column + 1);
          }
          sidewaysDirection := Direction.None;
        case Down =>
          if Collides(ToS8(row + 1), column) {
            placed, failed := Lock();
          } else {
            row := ToS8(row + 1);
            sidewaysDirection := Direction.None;
          }
        case _ =>
      }
    }

    /** update (polyomino.cpp:137-192): nothing happens to an inactive
        piece; otherwise gravity, then, unless that locked the piece or
        failed, the pending sideways step from the row gravity left, on the
        same occupancy. `placed` and `failed` are the flags update sets
        through its reference parameters. */
    method Update(dropFrames: u8) returns (placed: bool, failed: bool)
      requires Valid()
      modifies this`dropTimer, this`row, this`column, this`groundedTimer, this`sidewaysDirection, this`active,
               board.occupiedBitset
      ensures Valid() && definition == old(definition)
      ensures !old(active) ==>
        !placed && !failed && dropTimer == old(dropTimer) && row == old(row) && column == old(column)
        && groundedTimer == old(groundedTimer) && sidewaysDirection == old(sidewaysDirection) && !active
        && board.occupiedBitset[..] == old(board.occupiedBitset[..])
      ensures old(active) ==>
        var bits0 := old(board.occupiedBitset[..]);
        var elapsed := old(dropTimer) >= dropFrames;
        var below := Collide(bits0, board.masks, Shape(), ToS8(old(row) + 1), old(column));
        if elapsed && below && old(groundedTimer) >= MaxGroundedTimer then
          dropTimer == 0 && groundedTimer == 0 && row == old(row) && column == old(column)
          && sidewaysDirection == old(sidewaysDirection) && LockOutcome(bits0, placed, failed)
        else
          dropTimer == (if elapsed then 0 else old(dropTimer) + 1)
          && groundedTimer == (if !elapsed then old(groundedTimer) else if below then old(groundedTimer) + 1 else 0)
          && SidewaysOutcome(old(sidewaysDirection), bits0, if elapsed && !below then ToS8(old(row) + 1) else old(row),
                             old(column), placed, failed)
      ensures !(placed && failed) && (placed ==> !active) && (failed ==> active)
    {
      placed, failed := false, false;
      if !active {
        return;
      }
      var stop;
      stop, placed, failed := Gravity(dropFrames);
      if stop {
        return;
      }
      placed, failed := Sideways();
    }
  }
}
