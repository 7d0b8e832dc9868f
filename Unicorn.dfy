/** The unicorn of src/unicorn.cpp, the player character of the current
    game: energy, its upkeep and feeding, the score, and the state machine
    of update: waking up, getting trapped by a block, the roll (a charge of
    up to three cells that may hit a block) and the cell-to-cell moves it
    shares with src/player.cpp. The pads and the animation flags that
    update reads are parameters; sound effects and sprites are left out,
    and the block animations an impact queues are returned as a value. */
module Unicorn {
  import opened Common
  import opened FixedPoint
  import Walls
  import Board
  import opened Input
  import opened Directions
  import Utils
  import opened Player
  import BoardAnimation

  /** TIRED_MOVE_SPEED, fixed_point(0, 0x92) (unicorn.hpp:14). */
  const TiredSpeed: Fixed := Fixed(0x0092)

  /** The longest roll, in cells (unicorn.cpp:138). */
  const MaxRoll: nat := 3

  /** The highest score (unicorn.cpp:446-448). */
  const MaxScore: nat := 9999

  /** The score a game starts with under the higher_score cheat
      (unicorn.cpp:26). */
  const CheatScore: u16 := 8420

  /** The states of update, Roll and Impact included (unicorn.cpp:101-353;
      unicorn.hpp declares only the first five). */
  datatype State = Idle | Moving | Yawning | Sleeping | Trapped | Roll | Impact

  /** The states that go through check_idle (unicorn.cpp:104-106). */
  predicate Resting(s: State) {
    s == State.Idle || s == State.Yawning || s == State.Sleeping
  }

  /** move_speed (unicorn.cpp:37-43): slower once the energy is gone. */
  function Speed(energy: u8): (s: Fixed)
    ensures s == MoveSpeed <==> energy > 0
    ensures s == TiredSpeed <==> energy == 0
  {
    if energy > 0 then MoveSpeed else TiredSpeed
  }

  function Max(a: int, b: int): int {
    if a < b then b else a
  }

  /** The press check_idle works with: an empty press takes the stored
      one (unicorn.cpp:113-116). */
  function Effective(pressed: Buttons, buffered: Buttons): Buttons {
    if pressed == NoButtons then buffered else pressed
  }

  /** The state a press leaves a resting unicorn in before the tests of
      check_idle: a direction press wakes it (unicorn.cpp:109-112). */
  function Woken(pressed: Buttons, s: State): State {
    if AnyDirection(pressed) then State.Idle else s
  }

  /** The energy after the upkeep of one frame from the given energy and
      timer (unicorn.cpp:86-99). */
  function UpkeptEnergy(energy: u8, energyTimer: int, infiniteEnergy: bool): u8
    requires 0 <= energyTimer < EnergyTicks
  {
    if energyTimer < EnergyTicks - 1 then energy
    else if infiniteEnergy then MaxEnergy
    else if energy == 0 then 0
    else energy - 1
  }

  /** The roll is refused: too little energy, and rolls not free
      (unicorn.cpp:126). */
  predicate RollRefused(energy: u8, chargeCost: u8, rollDisabled: bool) {
    energy < chargeCost && !rollDisabled
  }

  /** The energy after paying for a roll: a uint8_t subtraction. */
  function Charge(energy: u8, chargeCost: u8): (e: u8)
    ensures energy >= chargeCost ==> e == energy - chargeCost
    ensures energy < chargeCost ==> e == energy - chargeCost + 0x100
  {
    ToU8(energy - chargeCost)
  }

  /** The column k cells from `column` in the roll's direction. */
  function Ahead(column: int, right: bool, k: int): int {
    if right then column + k else column - k
  }

  /** The wall a roll to the right or left crosses. */
  function RollSide(right: bool): Walls.Direction {
    if right then Walls.Right else Walls.Left
  }

  /** The scan goes past cell j of the roll: that cell is on the board, has
      no wall toward the roll, and the next cell is free (unicorn.cpp:
      136-141, 146-151). */
  predicate Open(bitset: seq<bv16>, masks: seq<bv16>, cells: seq<Walls.Cell>,
                 row: int, column: int, right: bool, j: int)
    requires |bitset| == Walls.Height && |masks| == Walls.Width && |cells| == Walls.Cells
  {
    Walls.InGrid(row, Ahead(column, right, j))
    && !Walls.Wall(cells[Walls.At(row, Ahead(column, right, j))], RollSide(right))
    && !Board.OccupiedIn(bitset, masks, row, Ahead(column, right, j + 1))
  }

  /** roll_distance after the scan, from k on: the scan stops at three
      cells, or at the first cell it cannot leave. Every cell before the
      stop is open, and the stop is closed unless three were reached. */
  function RollReach(bitset: seq<bv16>, masks: seq<bv16>, cells: seq<Walls.Cell>,
                     row: int, column: int, right: bool, k: nat): (r: nat)
    requires |bitset| == Walls.Height && |masks| == Walls.Width && |cells| == Walls.Cells
    requires k <= MaxRoll
    ensures k <= r <= MaxRoll
    ensures forall j :: k <= j < r ==> Open(bitset, masks, cells, row, column, right, j)
    ensures r < MaxRoll ==> !Open(bitset, masks, cells, row, column, right, r)
    ensures Walls.InGrid(row, Ahead(column, right, k)) ==> Walls.InGrid(row, Ahead(column, right, r))
    decreases MaxRoll - k
  {
    if k == MaxRoll || !Open(bitset, masks, cells, row, column, right, k) then k
    else RollReach(bitset, masks, cells, row, column, right, k + 1)
  }

  /** roll_into_block (unicorn.cpp:153): the scan stopped short of three
      cells on an occupied cell rather than on a wall. */
  predicate IntoBlock(bitset: seq<bv16>, masks: seq<bv16>, cells: seq<Walls.Cell>,
                      row: int, column: int, right: bool, r: nat)
    requires |bitset| == Walls.Height && |masks| == Walls.Width && |cells| == Walls.Cells
  {
    r < MaxRoll && Walls.InGrid(row, Ahead(column, right, r))
    && !Walls.Wall(cells[Walls.At(row, Ahead(column, right, r))], RollSide(right))
    && Board.OccupiedIn(bitset, masks, row, Ahead(column, right, r + 1))
  }

  /** A roll from a cell of the board passes only through cells of the
      board that were free when it started, and crosses no wall on the
      way; when it hits a block, that block lies on the board just past
      the last cell. */
  lemma {:induction false} RollPathClear(bitset: seq<bv16>, masks: seq<bv16>, cells: seq<Walls.Cell>,
                                         row: int, column: int, right: bool, r: nat)
    requires |bitset| == Walls.Height && |masks| == Walls.Width && |cells| == Walls.Cells
    requires Walls.InGrid(row, column) && r == RollReach(bitset, masks, cells, row, column, right, 0)
    ensures forall j :: 1 <= j <= r ==>
      Walls.InGrid(row, Ahead(column, right, j)) && !Board.OccupiedIn(bitset, masks, row, Ahead(column, right, j))
    ensures forall j :: 0 <= j < r ==>
      !Walls.Wall(cells[Walls.At(row, Ahead(column, right, j))], RollSide(right))
    ensures Walls.Borders(cells) && IntoBlock(bitset, masks, cells, row, column, right, r) ==>
      Walls.InGrid(row, Ahead(column, right, r + 1))
  {
    forall j | 1 <= j <= r
      ensures Walls.InGrid(row, Ahead(column, right, j)) && !Board.OccupiedIn(bitset, masks, row, Ahead(column, right, j))
    {
      assert Open(bitset, masks, cells, row, column, right, j - 1);
    }
    forall j | 0 <= j < r
      ensures !Walls.Wall(cells[Walls.At(row, Ahead(column, right, j))], RollSide(right))
    {
      assert Open(bitset, masks, cells, row, column, right, j);
    }
    if Walls.Borders(cells) && Walls.InGrid(row, Ahead(column, right, r)) {
      BorderStopsRoll(cells, row, Ahead(column, right, r), right);
    }
  }

  /** The outer walls stop a roll at the board's edge: from a cell of the
      board, the next cell along the roll is on the board or the cell has
      a wall on that side. */
  lemma BorderStopsRoll(cells: seq<Walls.Cell>, row: int, c: int, right: bool)
    requires |cells| == Walls.Cells && Walls.Borders(cells) && Walls.InGrid(row, c)
    ensures Walls.InGrid(row, Ahead(c, right, 1)) || Walls.Wall(cells[Walls.At(row, c)], RollSide(right))
  {
    assert Walls.AcrossColumn(c, RollSide(right)) == Ahead(c, right, 1);
    assert Walls.AcrossRow(row, RollSide(right)) == row;
  }

  /** A board animation an impact queues: its frame table and the cell it
      plays on. */
  datatype Queued = Queued(frames: seq<BoardAnimation.BoardAnimFrame>, row: int, column: int)

  /** The animations a block hit queues (unicorn.cpp:298-344): the block
      next to the unicorn breaks when the cell beyond it is occupied, and
      otherwise slides, leaving its cell and arriving at the one beyond. */
  function ImpactQueue(bitset: seq<bv16>, masks: seq<bv16>, row: int, column: int, right: bool): (q: seq<Queued>)
    requires |bitset| == Walls.Height && |masks| == Walls.Width
    ensures 1 <= |q| <= 2 && q[0].row == row && q[0].column == Ahead(column, right, 1)
    ensures |q| == 1 <==> Board.OccupiedIn(bitset, masks, row, Ahead(column, right, 2))
    ensures |q| == 1 ==> q[0].frames == if right then BoardAnimation.BlockBreakRight else BoardAnimation.BlockBreakLeft
    ensures |q| == 2 ==>
      q[0].frames == (if right then BoardAnimation.BlockMoveRight else BoardAnimation.BlockMoveLeft)
      && q[1] == Queued(if right then BoardAnimation.BlockArriveRight else BoardAnimation.BlockArriveLeft,
                        row, Ahead(column, right, 2))
  {
    var beyond := Ahead(column, right, 2);
    if Board.OccupiedIn(bitset, masks, row, beyond) then
      [Queued(if right then BoardAnimation.BlockBreakRight else BoardAnimation.BlockBreakLeft, row, Ahead(column, right, 1))]
    else
      [Queued(if right then BoardAnimation.BlockMoveRight else BoardAnimation.BlockMoveLeft, row, Ahead(column, right, 1)),
       Queued(if right then BoardAnimation.BlockArriveRight else BoardAnimation.BlockArriveLeft, row, beyond)]
  }

  /** The block animations of a frame: in the Impact state, when the roll
      ran into a block and the animation's block_hit flag is up, those
      ImpactQueue gives for the unicorn's cell and facing; none otherwise. */
  function ImpactOutcome(blockHit: bool, state0: State, intoBlock: bool, row0: int, column0: int,
                         facing0: Direction, bitset: seq<bv16>, masks: seq<bv16>): seq<Queued>
  {
    if state0 == State.Impact && intoBlock && blockHit && |bitset| == Walls.Height && |masks| == Walls.Width
    then ImpactQueue(bitset, masks, row0, column0, facing0 == Right)
    else []
  }

  /** A pushed block never leaves the board: occupied counts the cells past
      the side edges as taken, so a slide only happens onto a free cell of
      the board, and otherwise the block breaks in place. */
  lemma SlideStaysOnBoard(bitset: seq<bv16>, masks: seq<bv16>, row: int, column: int, right: bool)
    requires |bitset| == Walls.Height && |masks| == Walls.Width && Walls.InGrid(row, column)
    ensures var q := ImpactQueue(bitset, masks, row, column, right);
      |q| == 2 ==> Walls.InGrid(row, q[1].column) && !Board.OccupiedIn(bitset, masks, row, q[1].column)
    ensures var q := ImpactQueue(bitset, masks, row, column, right);
      |q| == 2 ==> Walls.InGrid(row, q[0].column)
  {
  }

  /** Paying for a roll that rolls are free to take with too little
      energy wraps the uint8_t energy far above MAX_ENERGY. */
  lemma FreeRollWrapsEnergy(energy: u8, chargeCost: u8)
    requires energy < chargeCost && chargeCost <= 0x100 - MaxEnergy
    ensures Charge(energy, chargeCost) >= MaxEnergy
    ensures Charge(energy, chargeCost) > energy
  {
  }

  /** A coordinate stands on cell k: k cells of 16 pixels from the
      board's edge. */
  predicate OnCell(x: Fixed, k: int) {
    Unsigned(x) == k * 0x1000
  }

  /** The constructor's `whole >> 4` (unicorn.cpp:25) stored in a uint8_t:
      the cell of the position in the first 128 pixels, and a number of
      248 or more, off the board, from there on. */
  lemma {:induction false} StartCell(x: Fixed)
    ensures Unsigned(x) < 0x8000 ==> ToU8(SignedCell(x)) == GridCell(x)
    ensures Unsigned(x) >= 0x8000 ==> ToU8(SignedCell(x)) >= 248
  {
    if x.value >= 0 {
      ModUnique(x.value, 0x1_0000, 0, x.value);
      WholeByte(x.value);
    } else {
      ModUnique(x.value, 0x1_0000, -1, x.value + 0x1_0000);
      assert -8 <= SignedCell(x) < 0;
    }
  }

  /** One cell forward or back keeps a coordinate on a cell. */
  lemma StepForwardOnCell(x: Fixed, k: int)
    requires OnCell(x, k) && 0 <= k && k + 1 < 16
    ensures OnCell(Add(x, GridSize), k + 1)
  {
    UnsignedAdd(x, GridSize);
  }

  lemma StepBackOnCell(x: Fixed, k: int)
    requires OnCell(x, k) && 0 < k < 16
    ensures OnCell(Sub(x, GridSize), k - 1)
  {
    UnsignedSub(x, GridSize);
  }

  /** The target of a move from a cell of the board to a neighbour on the
      board is that neighbour's position. */
  lemma TargetOnCell(x: Fixed, y: Fixed, row: int, column: int, d: Direction)
    requires d != Direction.None && OnCell(x, column) && OnCell(y, row) && Walls.InGrid(row, column)
    requires Walls.InGrid(Walls.AcrossRow(row, Side(d)), Walls.AcrossColumn(column, Side(d)))
    ensures OnCell(StepX(x, d), Walls.AcrossColumn(column, Side(d)))
    ensures OnCell(StepY(y, d), Walls.AcrossRow(row, Side(d)))
  {
    match d {
      case Up => StepBackOnCell(y, row);
      case Down => StepForwardOnCell(y, row);
      case Left => StepBackOnCell(x, column);
      case Right => StepForwardOnCell(x, column);
    }
  }

  /** The roll's scan (unicorn.cpp:133-153): the distance counts the
      open cells from the unicorn's, at most three, and roll_into_block
      says whether an occupied cell stopped it. */
  method ScanRoll(board: Board.Board, row: int, column: int, right: bool) returns (distance: nat, intoBlock: bool)
    requires board.Valid() && Walls.InGrid(row, column)
    ensures distance == RollReach(board.occupiedBitset[..], board.masks, board.cell[..], row, column, right, 0)
    ensures intoBlock == IntoBlock(board.occupiedBitset[..], board.masks, board.cell[..], row, column, right, distance)
  {
    ghost var bitset := board.occupiedBitset[..];
    ghost var cells := board.cell[..];
    ghost var goal := RollReach(bitset, board.masks, cells, row, column, right, 0);
    var side := RollSide(right);
    distance := 0;
    var occ := false;
    while distance < MaxRoll
      invariant distance <= MaxRoll && Walls.InGrid(row, Ahead(column, right, distance))
      invariant RollReach(bitset, board.masks, cells, row, column, right, distance) == goal
      invariant !occ
      decreases MaxRoll - distance
    {
      var c := Ahead(column, right, distance);
      var k := Board.BoardIndex(row, c);
      assert k == Walls.At(row, c) && board.cell[k] == cells[k];
      if Walls.Wall(board.cell[k], side) {
        break;
      }
      occ := board.Occupied(row, Ahead(column, right, distance + 1));
      if occ {
        break;
      }
      assert Open(bitset, board.masks, cells, row, column, right, distance);
      distance := distance + 1;
    }
    intoBlock := distance < MaxRoll && occ;
  }

  class Unicorn {
    /** The board the unicorn walks on; the unicorn only reads it. */
    const board: Board.Board
    /** CHARGE_COST, which the shown headers do not define. */
    const chargeCost: u8
    var state: State
    var x: Fixed
    var y: Fixed
    var row: int
    var column: int
    var score: u16
    var energy: u8
    var statue: bool
    var facing: Direction
    var moving: Direction
    var targetX: Fixed
    var targetY: Fixed
    var energyTimer: s16
    var originalEnergy: u8
    var bufferedInput: Buttons
    var rollDistance: nat
    var rollIntoBlock: bool

    /** The unicorn's cell is on the board and, unless it is moving, its
        position is that cell's; a move heads for a neighbouring cell of
        the board along one axis; a roll has its remaining cells on the
        board. The timer stays within one period, the score at most 9999,
        and the unicorn faces left or right. */
    ghost predicate Valid()
      reads this, board
    {
      board.Valid()
      && 0 <= energyTimer < EnergyTicks && score <= MaxScore
      && (facing == Left || facing == Right)
      && Walls.InGrid(row, column)
      && (state != State.Moving ==> OnCell(x, column) && OnCell(y, row))
      && (state == State.Moving ==>
            moving != Direction.None
            && Walls.InGrid(Walls.AcrossRow(row, Side(moving)), Walls.AcrossColumn(column, Side(moving)))
            && OnCell(targetX, Walls.AcrossColumn(column, Side(moving)))
            && OnCell(targetY, Walls.AcrossRow(row, Side(moving)))
            && ((moving == Up || moving == Down) ==> x == targetX)
            && ((moving == Left || moving == Right) ==> y == targetY))
      && (state == State.Roll ==>
            rollDistance <= MaxRoll && Walls.InGrid(row, Ahead(column, facing == Right, rollDistance)))
    }

    /** Unicorn(board, starting_x, starting_y) (unicorn.cpp:23-35): the
        cell is read from the start position, and the score starts at 8420
        under the higher_score cheat. */
    constructor(board: Board.Board, startingX: Fixed, startingY: Fixed, chargeCost: u8, higherScore: bool)
      requires board.Valid()
      ensures this.board == board && this.chargeCost == chargeCost && x == startingX && y == startingY
      ensures row == ToU8(SignedCell(startingY)) && column == ToU8(SignedCell(startingX))
      ensures score == if higherScore then CheatScore else 0
      ensures state == State.Idle && facing == Right && moving == Right && !statue
      ensures energy == StartingEnergy && originalEnergy == StartingEnergy && energyTimer == 0
      ensures OnBoard(startingX, startingY) && Unsigned(startingX) < 0x8000 && Unsigned(startingY) < 0x8000 ==> Valid()
    {
      this.board := board;
      this.chargeCost := chargeCost;
      state := State.Idle;
      x := startingX;
      y := startingY;
      row := ToU8(SignedCell(startingY));
      column := ToU8(SignedCell(startingX));
      score := if higherScore then CheatScore else 0;
      energy := StartingEnergy;
      statue := false;
      facing := Right;
      moving := Right;
      energyTimer := 0;
      originalEnergy := StartingEnergy;
      targetX := startingX;
      targetY := startingY;
      bufferedInput := NoButtons;
      rollDistance := 0;
      rollIntoBlock := false;
      new;
      StartCell(startingX);
      StartCell(startingY);
    }

    /** energy_upkeep (unicorn.cpp:86-99): the timer counts frames; when
        it completes a period it restarts, and the energy either refills
        to MAX_ENERGY under the infinite_energy cheat or drops by one, not
        below zero. Without the cheat this is the player's upkeep of one
        frame. */
    method EnergyUpkeep(infiniteEnergy: bool)
      requires 0 <= energyTimer < EnergyTicks
      modifies this`energy, this`energyTimer
      ensures energyTimer == (old(energyTimer) + 1) % EnergyTicks
      ensures old(energyTimer) < EnergyTicks - 1 ==> energy == old(energy)
      ensures old(energyTimer) == EnergyTicks - 1 && infiniteEnergy ==> energy == MaxEnergy
      ensures !infiniteEnergy ==> energy == Upkeep(old(energy), old(energyTimer) + 1).0
      ensures energy == UpkeptEnergy(old(energy), old(energyTimer), infiniteEnergy)
    {
      UpkeepOneFrame(energy, energyTimer);
      energyTimer := energyTimer + 1;
      if energyTimer >= EnergyTicks {
        energyTimer := 0;
        if infiniteEnergy {
          energy := MaxEnergy;
        } else if energy > 0 {
          energy := energy - 1;
        }
      }
    }

    /** feed (unicorn.cpp:432-441): the timer restarts and the energy
        grows by the nutrition, capped at MAX_ENERGY. */
    method Feed(nutrition: u8)
      requires Valid()
      modifies this`energy, this`energyTimer
      ensures Valid()
      ensures energyTimer == 0
      ensures energy == Min(old(energy) + nutrition, MaxEnergy)
    {
      energyTimer := 0;
      if energy < MaxEnergy - nutrition {
        energy := energy + nutrition;
      } else {
        energy := MaxEnergy;
      }
    }

    /** add_score (unicorn.cpp:443-453): the score grows by the points,
        capped at 9999, and the stage's high score rises to it. */
    method AddScore(points: u8, highScore: array<u16>, stage: u8)
      requires Valid() && stage < highScore.Length
      modifies this`score, highScore
      ensures Valid()
      ensures score == Min(old(score) + points, MaxScore)
      ensures highScore[stage] == Max(old(highScore[stage]), score)
      ensures forall k :: 0 <= k < highScore.Length && k != stage ==> highScore[k] == old(highScore[k])
    {
      score := ToU16(score + points);
      if score > MaxScore {
        score := MaxScore;
      }
      if score > highScore[stage] {
        highScore[stage] := score;
      }
    }

    /** The roll branch of check_idle (unicorn.cpp:123-155): refused with
        too little energy unless rolls are free, and otherwise paid for
        with CHARGE_COST and scanned. */
    method StartRoll(rollDisabled: bool)
      requires Valid() && Resting(state)
      modifies this`energy, this`state, this`rollDistance, this`rollIntoBlock
      ensures Valid()
      ensures RollRefused(old(energy), chargeCost, rollDisabled) ==>
        state == old(state) && energy == old(energy) && rollDistance == old(rollDistance) && !rollIntoBlock
      ensures !RollRefused(old(energy), chargeCost, rollDisabled) ==>
        state == State.Roll && energy == Charge(old(energy), chargeCost)
        && rollDistance == RollReach(board.occupiedBitset[..], board.masks, board.cell[..], row, column, facing == Right, 0)
        && rollIntoBlock == IntoBlock(board.occupiedBitset[..], board.masks, board.cell[..], row, column, facing == Right, rollDistance)
    {
      rollIntoBlock := false;
      if energy < chargeCost && !rollDisabled {
        return;
      }
      energy := Charge(energy, chargeCost);
      state := State.Roll;
      rollDistance, rollIntoBlock := ScanRoll(board, row, column, facing == Right);
    }

    /** check_idle (unicorn.cpp:108-203): a direction press wakes the
        unicorn, a stored press stands in for an empty one and is used up;
        then an occupied cell traps it, A or B starts a roll, and otherwise
        the first requested and allowed direction starts a move. */
    method CheckIdle(pressed: Buttons, held: Buttons, rollDisabled: bool)
      requires Valid() && Resting(state)
      modifies this`state, this`bufferedInput, this`energy, this`rollDistance, this`rollIntoBlock,
               this`facing, this`moving, this`targetX, this`targetY
      ensures Valid()
      ensures bufferedInput == if pressed == NoButtons then NoButtons else old(bufferedInput)
      ensures ActOutcome(Effective(pressed, old(bufferedInput)), held, rollDisabled, Woken(pressed, old(state)),
                         old(energy), old(moving), old(facing), old(targetX), old(targetY),
                         old(rollDistance), old(rollIntoBlock))
    {
      if AnyDirection(pressed) && state != State.Idle {
        state := State.Idle;
      }
      var p := pressed;
      if p == NoButtons && bufferedInput != NoButtons {
        p := bufferedInput;
        bufferedInput := NoButtons;
      }
      Act(p, held, rollDisabled);
    }

    /** The state the tests of check_idle (unicorn.cpp:117-203) leave, from
        the press p and the state, energy, direction, facing, target and
        roll they started with: an occupied cell traps the unicorn; A or B
        starts a roll paid for with CHARGE_COST and scanned, unless there is
        too little energy and rolls are not free; otherwise the first
        requested and allowed direction starts a move of one cell, or the
        unicorn stops where it is. The position is not changed. */
    ghost predicate ActOutcome(p: Buttons, held: Buttons, rollDisabled: bool, state0: State, energy0: u8,
                               moving0: Direction, facing0: Direction, targetX0: Fixed, targetY0: Fixed,
                               rollDistance0: nat, rollIntoBlock0: bool)
      requires Valid()
      reads this, board, board.occupiedBitset, board.cell
    {
      if board.Occupied(row, column) then
        state == State.Trapped && energy == energy0 && moving == moving0 && facing == facing0
        && targetX == targetX0 && targetY == targetY0
        && rollDistance == rollDistance0 && rollIntoBlock == rollIntoBlock0
      else if p.a || p.b then
        moving == moving0 && facing == facing0 && targetX == targetX0 && targetY == targetY0
        && if RollRefused(energy0, chargeCost, rollDisabled) then
             state == state0 && energy == energy0 && rollDistance == rollDistance0 && !rollIntoBlock
           else
             state == State.Roll && energy == Charge(energy0, chargeCost)
             && rollDistance == RollReach(board.occupiedBitset[..], board.masks, board.cell[..], row, column, facing == Right, 0)
             && rollIntoBlock == IntoBlock(board.occupiedBitset[..], board.masks, board.cell[..], row, column, facing == Right, rollDistance)
      else
        var d := IdleChoice(board.occupiedBitset[..], board.masks, board.cell[Walls.At(row, column)],
                            row, column, p, held, moving0);
        energy == energy0 && rollDistance == rollDistance0 && rollIntoBlock == rollIntoBlock0
        && moving == d && facing == NewFacing(facing0, d, p, held, moving0)
        && if d == Direction.None then
             state == state0 && targetX == targetX0 && targetY == targetY0
           else
             state == State.Moving && targetX == StepX(x, d) && targetY == StepY(y, d)
    }

    /** The tests of check_idle once the press is known (unicorn.cpp:
        117-203), as ActOutcome describes them. */
    method Act(p: Buttons, held: Buttons, rollDisabled: bool)
      requires Valid() && Resting(state)
      modifies this`state, this`energy, this`rollDistance, this`rollIntoBlock,
               this`facing, this`moving, this`targetX, this`targetY
      ensures Valid()
      ensures ActOutcome(p, held, rollDisabled, old(state), old(energy), old(moving), old(facing),
                         old(targetX), old(targetY), old(rollDistance), old(rollIntoBlock))
    {
      if board.Occupied(row, column) {
        state := State.Trapped;
      } else {
        ActFree(p, held, rollDisabled);
      }
    }

    /** The tests of check_idle on a free cell (unicorn.cpp:123-203): A or
        B starts a roll, and otherwise a move is chosen. */
    method ActFree(p: Buttons, held: Buttons, rollDisabled: bool)
      requires Valid() && Resting(state) && !board.Occupied(row, column)
      modifies this`state, this`energy, this`rollDistance, this`rollIntoBlock,
               this`facing, this`moving, this`targetX, this`targetY
      ensures Valid()
      ensures ActOutcome(p, held, rollDisabled, old(state), old(energy), old(moving), old(facing),
                         old(targetX), old(targetY), old(rollDistance), old(rollIntoBlock))
    {
      if p.a || p.b {
        StartRoll(rollDisabled);
      } else {
        assert Board.BoardIndex(row, column) == Walls.At(row, column);
        var cell := board.cell[Board.BoardIndex(row, column)];
        ChooseMove(p, held, cell);
      }
    }

    /** The direction tests of check_idle (unicorn.cpp:157-202): the move
        IdleChoice picks starts, or the unicorn stops where it is; left and
        right requests turn it as NewFacing says. */
    method ChooseMove(p: Buttons, held: Buttons, cell: Walls.Cell)
      requires Valid() && Resting(state)
      modifies this`facing, this`moving, this`targetX, this`targetY, this`state
      ensures Valid()
      ensures var d := IdleChoice(board.occupiedBitset[..], board.masks, cell, row, column, p, held, old(moving));
        moving == d && facing == NewFacing(old(facing), d, p, held, old(moving))
        && (d == Direction.None ==> state == old(state) && targetX == old(targetX) && targetY == old(targetY))
        && (d != Direction.None ==> state == State.Moving && targetX == StepX(x, d) && targetY == StepY(y, d))
    {
      var bitset := board.occupiedBitset[..];
      var d := IdleChoice(bitset, board.masks, cell, row, column, p, held, moving);
      facing := NewFacing(facing, d, p, held, moving);
      if d != Direction.None {
        AllowedMeansFreeNeighbour(bitset, board.masks, cell, row, column, d);
        TargetOnCell(x, y, row, column, d);
        moving := d;
        targetX := StepX(x, d);
        targetY := StepY(y, d);
        state := State.Moving;
      } else {
        moving := Direction.None;
      }
    }

    /** One frame of a move (unicorn.cpp:212-262) at the given speed: the
        position steps toward the target, and on arrival is set to the
        target, whose cell becomes the unicorn's. */
    method Glide(speed: Fixed) returns (arrived: bool)
      requires Valid() && state == State.Moving
      modifies this`x, this`y, this`row, this`column
      ensures arrived == Arrives(moving, old(x), old(y), targetX, targetY, speed)
      ensures !arrived ==> Valid()
      ensures !arrived ==> row == old(row) && column == old(column)
      ensures !arrived ==> x == GlideX(old(x), moving, speed) && y == GlideY(old(y), moving, speed)
      ensures arrived ==> x == targetX && y == targetY
      ensures arrived ==>
        row == Walls.AcrossRow(old(row), Side(moving)) && column == Walls.AcrossColumn(old(column), Side(moving))
      ensures arrived ==> Walls.InGrid(row, column) && OnCell(x, column) && OnCell(y, row)
    {
      arrived := false;
      match moving {
        case Up =>
          if LessEq(y, Add(targetY, speed)) {
            y := targetY;
            row := row - 1;
            arrived := true;
          } else {
            y := Sub(y, speed);
          }
        case Right =>
          x := Add(x, speed);
          if GreaterEq(x, targetX) {
            x := targetX;
            column := column + 1;
            arrived := true;
          }
        case Down =>
          y := Add(y, speed);
          if GreaterEq(y, targetY) {
            y := targetY;
            row := row + 1;
            arrived := true;
          }
        case Left =>
          if LessEq(x, Add(targetX, speed)) {
            x := targetX;
            column := column - 1;
            arrived := true;
          } else {
            x := Sub(x, speed);
          }
        case None =>
      }
    }

    /** The press handling at the top of the State.Moving case (unicorn.cpp:
        205-210): a fresh press is stored, and an empty held sample takes
        the stored press. */
    method StorePress(pressed: Buttons, held: Buttons) returns (h: Buttons)
      requires Valid()
      modifies this`bufferedInput
      ensures Valid()
      ensures bufferedInput == if pressed == NoButtons then old(bufferedInput) else pressed
      ensures h == if held == NoButtons then bufferedInput else held
    {
      if pressed != NoButtons {
        bufferedInput := pressed;
      }
      h := held;
      if h == NoButtons && bufferedInput != NoButtons {
        h := Or(h, bufferedInput);
      }
    }

    /** The state the State.Moving case of update (unicorn.cpp:205-265)
        leaves, from the values it started with: a fresh press is stored,
        and an empty held sample takes the stored press; then the unicorn
        glides as GlideOutcome says. */
    ghost predicate MovingOutcome(pressed: Buttons, held: Buttons, rollDisabled: bool, buffered0: Buttons,
                                  energy0: u8, moving0: Direction, facing0: Direction, x0: Fixed, y0: Fixed,
                                  row0: u8, column0: u8, targetX0: Fixed, targetY0: Fixed,
                                  rollDistance0: nat, rollIntoBlock0: bool)
      requires Valid()
      reads this, board, board.occupiedBitset, board.cell
    {
      var stored := if pressed == NoButtons then buffered0 else pressed;
      GlideOutcome(pressed, if held == NoButtons then stored else held, rollDisabled, stored, energy0,
                   moving0, facing0, x0, y0, row0, column0, targetX0, targetY0, rollDistance0, rollIntoBlock0)
    }

    /** The state one frame of a move leaves once the press is stored in
        buffered0 and h is the held sample: until it arrives the unicorn
        glides toward the target at the speed its energy allows; on arrival
        it is on the target cell, idle, stops unless a direction is held,
        and goes through check_idle in the same frame (unicorn.cpp:212-262). */
    ghost predicate GlideOutcome(pressed: Buttons, h: Buttons, rollDisabled: bool, buffered0: Buttons,
                                 energy0: u8, moving0: Direction, facing0: Direction, x0: Fixed, y0: Fixed,
                                 row0: u8, column0: u8, targetX0: Fixed, targetY0: Fixed,
                                 rollDistance0: nat, rollIntoBlock0: bool)
      requires Valid()
      reads this, board, board.occupiedBitset, board.cell
    {
      var speed := Speed(energy0);
      if !Arrives(moving0, x0, y0, targetX0, targetY0, speed) then
        state == State.Moving && bufferedInput == buffered0 && energy == energy0
        && moving == moving0 && facing == facing0 && targetX == targetX0 && targetY == targetY0
        && rollDistance == rollDistance0 && rollIntoBlock == rollIntoBlock0
        && row == row0 && column == column0
        && x == GlideX(x0, moving0, speed) && y == GlideY(y0, moving0, speed)
      else
        row == Walls.AcrossRow(row0, Side(moving0)) && column == Walls.AcrossColumn(column0, Side(moving0))
        && x == targetX0 && y == targetY0
        && ArrivalOutcome(pressed, h, rollDisabled, buffered0, energy0, moving0, facing0, targetX0, targetY0,
                          rollDistance0, rollIntoBlock0)
    }

    /** The state arrival leaves (unicorn.cpp:214-221 and the three like
        it), from the values it started with: the unicorn is idle, stops
        unless a direction is held, and goes through check_idle. */
    ghost predicate ArrivalOutcome(pressed: Buttons, held: Buttons, rollDisabled: bool, buffered0: Buttons,
                                   energy0: u8, moving0: Direction, facing0: Direction,
                                   targetX0: Fixed, targetY0: Fixed, rollDistance0: nat, rollIntoBlock0: bool)
      requires Valid()
      reads this, board, board.occupiedBitset, board.cell
    {
      && bufferedInput == (if pressed == NoButtons then NoButtons else buffered0)
      && ActOutcome(Effective(pressed, buffered0), held, rollDisabled, State.Idle, energy0,
                    if AnyDirection(held) then moving0 else Direction.None, facing0, targetX0, targetY0,
                    rollDistance0, rollIntoBlock0)
    }

    /** The State.Moving case of update (unicorn.cpp:205-265), as
        MovingOutcome describes it. */
    method MovingStep(pressed: Buttons, held: Buttons, rollDisabled: bool)
      requires Valid() && state == State.Moving
      modifies this`state, this`bufferedInput, this`energy, this`rollDistance, this`rollIntoBlock,
               this`facing, this`moving, this`targetX, this`targetY, this`x, this`y, this`row, this`column
      ensures Valid()
      ensures MovingOutcome(pressed, held, rollDisabled, old(bufferedInput), old(energy), old(moving), old(facing),
                            old(x), old(y), old(row), old(column), old(targetX), old(targetY),
                            old(rollDistance), old(rollIntoBlock))
    {
      var h := StorePress(pressed, held);
      GlideStep(pressed, h, rollDisabled);
    }

    /** One frame of a move once the press is stored (unicorn.cpp:212-262),
        as GlideOutcome describes it. */
    method GlideStep(pressed: Buttons, h: Buttons, rollDisabled: bool)
      requires Valid() && state == State.Moving
      modifies this`state, this`bufferedInput, this`energy, this`rollDistance, this`rollIntoBlock,
               this`facing, this`moving, this`targetX, this`targetY, this`x, this`y, this`row, this`column
      ensures Valid()
      ensures GlideOutcome(pressed, h, rollDisabled, old(bufferedInput), old(energy), old(moving), old(facing),
                           old(x), old(y), old(row), old(column), old(targetX), old(targetY),
                           old(rollDistance), old(rollIntoBlock))
    {
      var arrived := Glide(Speed(energy));
      if arrived {
        Arrive(pressed, h, rollDisabled);
      }
    }

    /** The arrival branch (unicorn.cpp:214-221 and the three like it), as
        ArrivalOutcome describes it; the position is left alone. */
    method Arrive(pressed: Buttons, held: Buttons, rollDisabled: bool)
      requires board.Valid() && 0 <= energyTimer < EnergyTicks && score <= MaxScore
      requires (facing == Left || facing == Right) && Walls.InGrid(row, column) && OnCell(x, column) && OnCell(y, row)
      modifies this`state, this`bufferedInput, this`energy, this`rollDistance, this`rollIntoBlock,
               this`facing, this`moving, this`targetX, this`targetY
      ensures Valid()
      ensures ArrivalOutcome(pressed, held, rollDisabled, old(bufferedInput), old(energy), old(moving), old(facing),
                             old(targetX), old(targetY), old(rollDistance), old(rollIntoBlock))
    {
      state := State.Idle;
      if !AnyDirection(held) {
        moving := Direction.None;
      }
      CheckIdle(pressed, held, rollDisabled);
    }

    /** The Roll case of update (unicorn.cpp:272-293): a finished animation
        ends the roll; at each impact check the roll either ends in an
        impact, when no cells are left, or carries the unicorn one cell on. */
    method RollStep(finished: bool, checkImpact: bool)
      requires Valid() && state == State.Roll
      modifies this`state, this`rollDistance, this`column, this`x
      ensures Valid()
      ensures finished ==> state == State.Idle && column == old(column) && x == old(x) && rollDistance == old(rollDistance)
      ensures !finished && !checkImpact ==>
        state == State.Roll && column == old(column) && x == old(x) && rollDistance == old(rollDistance)
      ensures !finished && checkImpact && old(rollDistance) == 0 ==>
        state == State.Impact && column == old(column) && x == old(x) && rollDistance == 0
      ensures !finished && checkImpact && old(rollDistance) > 0 ==>
        state == State.Roll && rollDistance == old(rollDistance) - 1
        && column == Ahead(old(column), facing == Right, 1) && x == StepX(old(x), facing)
    {
      if finished {
        state := State.Idle;
        return;
      }
      if checkImpact {
        if rollDistance == 0 {
          state := State.Impact;
          return;
        }
        rollDistance := rollDistance - 1;
        if facing == Right {
          StepForwardOnCell(x, column);
          column := column + 1;
          x := Add(x, GridSize);
        } else {
          StepBackOnCell(x, column);
          column := column - 1;
          x := Sub(x, GridSize);
        }
      }
    }

    /** update (unicorn.cpp:101-353): the upkeep of one frame, then the
        step of the current state with the upkept energy. `finished`,
        `checkImpact` and `blockHit` are the flags of the state's animation
        this frame. A trapped unicorn stays trapped where it is, and the
        unicorn never leaves the board. */
    method Update(pressed: Buttons, held: Buttons, rollDisabled: bool, infiniteEnergy: bool,
                  finished: bool, checkImpact: bool, blockHit: bool) returns (queued: seq<Queued>)
      requires Valid()
      modifies this`state, this`bufferedInput, this`energy, this`energyTimer, this`rollDistance, this`rollIntoBlock,
               this`facing, this`moving, this`targetX, this`targetY, this`x, this`y, this`row, this`column
      ensures Valid()
      ensures energyTimer == (old(energyTimer) + 1) % EnergyTicks
      ensures StepOutcome(pressed, held, rollDisabled, finished, checkImpact, old(state), old(bufferedInput),
                          UpkeptEnergy(old(energy), old(energyTimer), infiniteEnergy), old(moving), old(facing),
                          old(x), old(y), old(row), old(column), old(targetX), old(targetY),
                          old(rollDistance), old(rollIntoBlock))
      ensures queued == ImpactOutcome(blockHit, old(state), old(rollIntoBlock), old(row), old(column), old(facing),
                                      board.occupiedBitset[..], board.masks)
    {
      EnergyUpkeep(infiniteEnergy);
      queued := Step(pressed, held, rollDisabled, finished, checkImpact, blockHit);
    }

    /** The state one step of update leaves, from the state it started in:
        a resting unicorn stays on its cell and acts as check_idle does on
        the pressed or buffered buttons, a moving one goes on as
        MovingOutcome says, and the others keep everything but what their
        action step (ActionOutcome) changes. */
    ghost predicate StepOutcome(pressed: Buttons, held: Buttons, rollDisabled: bool, finished: bool, checkImpact: bool,
                                state0: State, buffered0: Buttons, energy0: u8, moving0: Direction, facing0: Direction,
                                x0: Fixed, y0: Fixed, row0: u8, column0: u8, targetX0: Fixed, targetY0: Fixed,
                                rollDistance0: nat, rollIntoBlock0: bool)
      requires Valid()
      reads this, board, board.occupiedBitset, board.cell
    {
      && (Resting(state0) ==>
            x == x0 && y == y0 && row == row0 && column == column0
            && bufferedInput == (if pressed == NoButtons then NoButtons else buffered0)
            && ActOutcome(Effective(pressed, buffered0), held, rollDisabled, Woken(pressed, state0),
                          energy0, moving0, facing0, targetX0, targetY0, rollDistance0, rollIntoBlock0))
      && (state0 == State.Moving ==>
            MovingOutcome(pressed, held, rollDisabled, buffered0, energy0, moving0, facing0,
                          x0, y0, row0, column0, targetX0, targetY0, rollDistance0, rollIntoBlock0))
      && (!Resting(state0) && state0 != State.Moving ==>
            energy == energy0 && bufferedInput == buffered0 && moving == moving0 && facing == facing0
            && targetX == targetX0 && targetY == targetY0 && y == y0 && row == row0
            && rollIntoBlock == rollIntoBlock0
            && ActionOutcome(finished, checkImpact, state0, column0, x0, rollDistance0))
    }

    /** The switch on the state in update (unicorn.cpp:104-353): the
        resting states go through check_idle, a move goes on or arrives, and
        the other states go as ActionStep describes. */
    method Step(pressed: Buttons, held: Buttons, rollDisabled: bool, finished: bool, checkImpact: bool,
                blockHit: bool) returns (queued: seq<Queued>)
      requires Valid()
      modifies this`state, this`bufferedInput, this`energy, this`rollDistance, this`rollIntoBlock,
               this`facing, this`moving, this`targetX, this`targetY, this`x, this`y, this`row, this`column
      ensures Valid()
      ensures StepOutcome(pressed, held, rollDisabled, finished, checkImpact, old(state), old(bufferedInput),
                          old(energy), old(moving), old(facing), old(x), old(y), old(row), old(column),
                          old(targetX), old(targetY), old(rollDistance), old(rollIntoBlock))
      ensures queued == ImpactOutcome(blockHit, old(state), old(rollIntoBlock), old(row), old(column), old(facing),
                                      board.occupiedBitset[..], board.masks)
    {
      if Resting(state) {
        queued := [];
        CheckIdle(pressed, held, rollDisabled);
      } else {
        queued := BusyStep(pressed, held, rollDisabled, finished, checkImpact, blockHit);
      }
    }

    /** The Moving, Trapped, Roll and Impact cases of update
        (unicorn.cpp:205-353). */
    method BusyStep(pressed: Buttons, held: Buttons, rollDisabled: bool, finished: bool, checkImpact: bool,
                    blockHit: bool) returns (queued: seq<Queued>)
      requires Valid() && !Resting(state)
      modifies this`state, this`bufferedInput, this`energy, this`rollDistance, this`rollIntoBlock,
               this`facing, this`moving, this`targetX, this`targetY, this`x, this`y, this`row, this`column
      ensures Valid()
      ensures StepOutcome(pressed, held, rollDisabled, finished, checkImpact, old(state), old(bufferedInput),
                          old(energy), old(moving), old(facing), old(x), old(y), old(row), old(column),
                          old(targetX), old(targetY), old(rollDistance), old(rollIntoBlock))
      ensures queued == ImpactOutcome(blockHit, old(state), old(rollIntoBlock), old(row), old(column), old(facing),
                                      board.occupiedBitset[..], board.masks)
    {
      if state == State.Moving {
        queued := [];
        MovingStep(pressed, held, rollDisabled);
      } else {
        queued := ActionStep(finished, checkImpact, blockHit);
      }
    }

    /** The state the Trapped, Roll and Impact cases of update (unicorn.cpp:
        266-353) leave, from the state, column, position and roll they
        started with: a trapped unicorn stays where it is; a finished roll
        animation ends the roll; at each impact check the roll ends in an
        impact when no cells are left and otherwise carries the unicorn one
        cell on; a finished impact animation leaves the unicorn idle. */
    ghost predicate ActionOutcome(finished: bool, checkImpact: bool, state0: State, column0: u8, x0: Fixed, rollDistance0: nat)
      reads this
    {
      match state0
      case Roll =>
        if finished then state == State.Idle && column == column0 && x == x0 && rollDistance == rollDistance0
        else if !checkImpact then state == State.Roll && column == column0 && x == x0 && rollDistance == rollDistance0
        else if rollDistance0 == 0 then state == State.Impact && column == column0 && x == x0 && rollDistance == 0
        else state == State.Roll && rollDistance == rollDistance0 - 1
             && column == Ahead(column0, facing == Right, 1) && x == StepX(x0, facing)
      case Impact =>
        state == (if finished then State.Idle else State.Impact)
        && column == column0 && x == x0 && rollDistance == rollDistance0
      case _ =>
        state == state0 && column == column0 && x == x0 && rollDistance == rollDistance0
    }

    /** The Trapped, Roll and Impact cases of update (unicorn.cpp:266-353),
        as ActionOutcome describes them, with the block animations an
        impact queues. */
    method ActionStep(finished: bool, checkImpact: bool, blockHit: bool) returns (queued: seq<Queued>)
      requires Valid() && !Resting(state) && state != State.Moving
      modifies this`state, this`rollDistance, this`column, this`x
      ensures Valid()
      ensures ActionOutcome(finished, checkImpact, old(state), old(column), old(x), old(rollDistance))
      ensures queued == ImpactOutcome(blockHit, old(state), rollIntoBlock, row, old(column), facing,
                                      board.occupiedBitset[..], board.masks)
    {
      queued := [];
      match state {
        case Trapped =>
        case Roll => RollStep(finished, checkImpact);
        case Impact =>
          if finished {
            state := State.Idle;
          }
          if rollIntoBlock && blockHit {
            queued := ImpactHit();
          }
      }
    }

    /** The block hit of the Impact case (unicorn.cpp:296-344): the
        occupancy of the cell beyond the block picks between breaking it
        and sliding it. */
    method ImpactHit() returns (queued: seq<Queued>)
      requires Valid()
      ensures queued == ImpactQueue(board.occupiedBitset[..], board.masks, row, column, facing == Right)
    {
      var right := facing == Right;
      var beyond := Ahead(column, right, 2);
      if board.Occupied(row, beyond) {
        queued := [Queued(if right then BoardAnimation.BlockBreakRight else BoardAnimation.BlockBreakLeft,
                          row, Ahead(column, right, 1))];
      } else {
        queued := [Queued(if right then BoardAnimation.BlockMoveRight else BoardAnimation.BlockMoveLeft,
                          row, Ahead(column, right, 1)),
                   Queued(if right then BoardAnimation.BlockArriveRight else BoardAnimation.BlockArriveLeft,
                          row, beyond)];
      }
    }
  }
}
