/** The player of src/player.cpp: energy and its upkeep, feeding, the
    cell-to-cell movement state machine of update, and the score HUD texts.
    The pads are parameters; sound effects, sprites and VRAM writes are
    left out. */
module Player {
  import opened Common
  import opened FixedPoint
  import Walls
  import Board
  import opened Input
  import opened Directions
  import Utils
  import Charset

  /** MAX_ENERGY, STARTING_ENERGY and ENERGY_TICKS (player.hpp:14-16, 38). */
  const MaxEnergy: u8 := 12
  const StartingEnergy: u8 := 9
  const EnergyTicks: int := 240

  /** DEFAULT_MOVE_SPEED, fixed_point(1, 0x25) (player.hpp:14). */
  const MoveSpeed: Fixed := Fixed(0x0125)

  /** GRID_SIZE, fixed_point(0x10, 0) (player.cpp:16): one cell, 16 pixels. */
  const GridSize: Fixed := Fixed(0x1000)

  datatype State = Idle | Moving

  /** current_controller_scheme: which pad drives the player. */
  datatype ControllerScheme = OnePlayer | TwoPlayers

  /** One controller's get_pad_new and pad_state. */
  datatype Pad = Pad(pressed: Buttons, held: Buttons)

  /** The pad selection at the top of update (player.cpp:44-59): in a
      one-player game the pad counts only while it drives the player. */
  function SelectPad(scheme: ControllerScheme, mode: InputMode, pad0: Pad, pad1: Pad): Pad {
    match scheme
    case OnePlayer => if mode == PlayerMode then pad0 else Pad(NoButtons, NoButtons)
    case TwoPlayers => pad1
  }

  /** The cap of feed. */
  function Min(a: int, b: int): int {
    if a < b then a else b
  }

  /** The (energy, energy_timer) that the loop of energy_upkeep leaves once
      the timer has been advanced to t: one unit of energy per 240 timer
      steps, stopping at the first period that finds no energy left. */
  function Upkeep(energy: u8, t: int): (r: (u8, int))
    decreases t
  {
    if t < EnergyTicks then (energy, t)
    else if energy == 0 then (0, t - EnergyTicks)
    else Upkeep(energy - 1, t - EnergyTicks)
  }

  /** The upkeep in closed form: with k = t / 240 whole periods, energy
      drops by k and the timer keeps the remainder when there is enough
      energy; otherwise energy ends at 0 and the timer has lost one period
      more than there was energy, the rest staying on the timer. */
  lemma {:induction false} UpkeepClosedForm(energy: u8, t: int)
    requires t >= 0
    ensures t / EnergyTicks <= energy ==>
      Upkeep(energy, t).0 == energy - t / EnergyTicks && Upkeep(energy, t).1 == t % EnergyTicks
    ensures t / EnergyTicks > energy ==>
      Upkeep(energy, t).0 == 0 && Upkeep(energy, t).1 == t - EnergyTicks * (energy + 1)
  {
    if t >= EnergyTicks && energy > 0 {
      UpkeepClosedForm(energy - 1, t - EnergyTicks);
      PeriodStep(t);
    }
  }

  lemma PeriodStep(t: int)
    requires t >= EnergyTicks
    ensures (t - EnergyTicks) / EnergyTicks == t / EnergyTicks - 1
    ensures (t - EnergyTicks) % EnergyTicks == t % EnergyTicks
  {
  }

  /** One frame's upkeep from a timer below 240: energy drops by one, never
      below zero, exactly when the timer completes its period, and the timer
      wraps back to zero. */
  lemma UpkeepOneFrame(energy: u8, timer: int)
    requires 0 <= timer < EnergyTicks
    ensures Upkeep(energy, timer + 1).1 == (timer + 1) % EnergyTicks
    ensures Upkeep(energy, timer + 1).0 ==
      if timer == EnergyTicks - 1 && energy > 0 then energy - 1 else energy
  {
  }

  /** The bit of one direction in a pad sample. */
  predicate Bit(p: Buttons, d: Direction) {
    match d
    case Up => p.up
    case Down => p.down
    case Left => p.left
    case Right => p.right
    case None => false
  }

  /** PRESS_HELD(button) (player.cpp:75-77): a fresh press, or, with
      nothing pressed while already moving, a held button. */
  predicate Requested(pressed: Buttons, held: Buttons, moving: Direction, d: Direction) {
    Bit(pressed, d) || (pressed == NoButtons && moving != Direction.None && Bit(held, d))
  }

  /** The wall test and the occupancy test of one direction (player.cpp:
      78-117). Up also needs a row above 0, since above the board reads as
      free; the other edges read as occupied. The (s8) casts change nothing
      for the rows and columns that occur, which lie within -9..16. */
  predicate Allowed(bitset: seq<bv16>, masks: seq<bv16>, cell: Walls.Cell, row: int, column: int, d: Direction)
    requires |bitset| == Walls.Height && |masks| == Walls.Width
  {
    match d
    case Up => !cell.up && row > 0 && !Board.OccupiedIn(bitset, masks, row - 1, column)
    case Down => !cell.down && !Board.OccupiedIn(bitset, masks, row + 1, column)
    case Left => !cell.left && !Board.OccupiedIn(bitset, masks, row, column - 1)
    case Right => !cell.right && !Board.OccupiedIn(bitset, masks, row, column + 1)
    case None => false
  }

  /** The order in which check_idle tries the directions. */
  function Rank(d: Direction): nat {
    match d
    case Up => 0
    case Down => 1
    case Left => 2
    case Right => 3
    case None => 4
  }

  /** The move check_idle starts (player.cpp:78-120): the first of up, down,
      left and right that is requested and allowed, or none. */
  function IdleChoice(bitset: seq<bv16>, masks: seq<bv16>, cell: Walls.Cell, row: int, column: int,
                      pressed: Buttons, held: Buttons, moving: Direction): (d: Direction)
    requires |bitset| == Walls.Height && |masks| == Walls.Width
    ensures d != Direction.None ==> Requested(pressed, held, moving, d) && Allowed(bitset, masks, cell, row, column, d)
    ensures forall e :: Rank(e) < Rank(d) ==>
      !(Requested(pressed, held, moving, e) && Allowed(bitset, masks, cell, row, column, e))
  {
    if Requested(pressed, held, moving, Up) && Allowed(bitset, masks, cell, row, column, Up) then Up
    else if Requested(pressed, held, moving, Down) && Allowed(bitset, masks, cell, row, column, Down) then Down
    else if Requested(pressed, held, moving, Left) && Allowed(bitset, masks, cell, row, column, Left) then Left
    else if Requested(pressed, held, moving, Right) && Allowed(bitset, masks, cell, row, column, Right) then Right
    else Direction.None
  }

  /** The wall of a cell that a move crosses. */
  function Side(d: Direction): Walls.Direction
    requires d != Direction.None
  {
    match d
    case Up => Walls.Up
    case Down => Walls.Down
    case Left => Walls.Left
    case Right => Walls.Right
  }

  /** From a cell of the board, a move is allowed exactly when the cell has
      no wall on that side and the neighbour across it is a free cell of
      the board. */
  lemma AllowedMeansFreeNeighbour(bitset: seq<bv16>, masks: seq<bv16>, cell: Walls.Cell, row: int, column: int, d: Direction)
    requires |bitset| == Walls.Height && |masks| == Walls.Width
    requires Walls.InGrid(row, column) && d != Direction.None
    ensures Allowed(bitset, masks, cell, row, column, d) <==>
      var r := Walls.AcrossRow(row, Side(d));
      var c := Walls.AcrossColumn(column, Side(d));
      !Walls.Wall(cell, Side(d)) && Walls.InGrid(r, c) && !Board.OccupiedIn(bitset, masks, r, c)
  {
  }

  /** The direction check_idle faces after its tests: a left request turns
      it left and a later right request right; an up or down move keeps
      the old facing. */
  function NewFacing(facing: Direction, d: Direction, pressed: Buttons, held: Buttons, moving: Direction): Direction {
    if d == Up || d == Down then facing
    else if d == Left then Left
    else if Requested(pressed, held, moving, Right) then Right
    else if Requested(pressed, held, moving, Left) then Left
    else facing
  }

  /** The target of a move of one cell. */
  function StepX(x: Fixed, d: Direction): Fixed {
    match d
    case Left => Sub(x, GridSize)
    case Right => Add(x, GridSize)
    case _ => x
  }

  function StepY(y: Fixed, d: Direction): Fixed {
    match d
    case Up => Sub(y, GridSize)
    case Down => Add(y, GridSize)
    case _ => y
  }

  /** A coordinate's 16 bits read as unsigned: 256ths of a pixel from the
      board's edge. */
  function Unsigned(x: Fixed): (u: nat)
    ensures u < 0x1_0000 && (u - x.value) % 0x1_0000 == 0
  {
    x.value % 0x1_0000
  }

  /** The player stands exactly on a cell of the board. */
  predicate OnBoard(x: Fixed, y: Fixed) {
    Unsigned(x) % 0x1000 == 0 && Unsigned(x) < Walls.Width * 0x1000
    && Unsigned(y) % 0x1000 == 0 && Unsigned(y) < Walls.Height * 0x1000
  }

  /** The cell of a coordinate as player.cpp:69-70 computes it: the whole
      part as int8_t shifted right by 4, the floor of whole / 16. */
  function SignedCell(x: Fixed): int {
    Whole(x) / 16
  }

  /** The cell of a coordinate with the whole part read as uint8_t: 0 to
      176 pixels are columns 0 to 11. */
  function GridCell(x: Fixed): (k: nat)
    ensures k == Unsigned(x) / 0x1000 && k < 16
  {
    WholeByte(x.value);
    ToU8(Whole(x)) / 16
  }

  lemma WholeByte(v: s16)
    ensures ToU8(v / 256) == (v % 0x1_0000) / 256
  {
    var w := v / 256;
    var f := v % 256;
    if v < 0 {
      ModUnique(v, 0x1_0000, -1, v + 0x1_0000);
      ModUnique(w, 256, -1, w + 256);
      DivOfParts(v + 0x1_0000, w + 256, f);
    } else {
      ModUnique(v, 0x1_0000, 0, v);
      ModUnique(w, 256, 0, w);
    }
  }

  lemma DivOfParts(x: int, q: int, r: int)
    requires x == q * 256 + r && 0 <= r < 256
    ensures x / 256 == q
  {
  }

  /** Positions at 128 pixels or more, such as column 8 that a right move
      from column 7 reaches, come out negative in the signed reading. */
  lemma SignedCellPastColumnSeven()
    ensures Add(Fixed(0x7000), GridSize) == Fixed(-0x8000)
    ensures OnBoard(Fixed(-0x8000), Fixed(0x5000)) && GridCell(Fixed(-0x8000)) == 8
    ensures SignedCell(Fixed(-0x8000)) == -8
  {
  }

  /** With the signed reading, a player at column -8 has every neighbour
      outside the board's sides, which reads as occupied: whatever is
      pressed and whatever the cell's walls, no move ever starts. */
  lemma StuckAtNegativeColumn(bitset: seq<bv16>, masks: seq<bv16>, cell: Walls.Cell, row: int,
                              pressed: Buttons, held: Buttons, moving: Direction)
    requires |bitset| == Walls.Height && |masks| == Walls.Width
    ensures IdleChoice(bitset, masks, cell, row, -8, pressed, held, moving) == Direction.None
  {
  }

  /** Arithmetic on the unsigned reading is modulo 2^16. */
  lemma UnsignedAdd(a: Fixed, b: Fixed)
    ensures Unsigned(Add(a, b)) == (Unsigned(a) + Unsigned(b)) % 0x1_0000
  {
    assert Add(a, b).value == ToS16(a.value + b.value);
    TruncateKeepsLowBits(a.value + b.value);
    LowBitsOfSum(a.value, b.value);
  }

  lemma UnsignedSub(a: Fixed, b: Fixed)
    ensures Unsigned(Sub(a, b)) == (Unsigned(a) - Unsigned(b)) % 0x1_0000
  {
    assert Sub(a, b).value == ToS16(a.value - b.value);
    TruncateKeepsLowBits(a.value - b.value);
    LowBitsOfDifference(a.value, b.value);
  }

  lemma TruncateKeepsLowBits(v: int)
    ensures ToS16(v) % 0x1_0000 == v % 0x1_0000
  {
  }

  lemma LowBitsOfSum(x: int, y: int)
    ensures (x + y) % 0x1_0000 == (x % 0x1_0000 + y % 0x1_0000) % 0x1_0000
  {
    var k := x / 0x1_0000 + y / 0x1_0000;
    assert x + y == (x % 0x1_0000 + y % 0x1_0000) + k * 0x1_0000;
    LowBitsShift(x % 0x1_0000 + y % 0x1_0000, k);
  }

  lemma LowBitsOfDifference(x: int, y: int)
    ensures (x - y) % 0x1_0000 == (x % 0x1_0000 - y % 0x1_0000) % 0x1_0000
  {
    var k := x / 0x1_0000 - y / 0x1_0000;
    assert x - y == (x % 0x1_0000 - y % 0x1_0000) + k * 0x1_0000;
    LowBitsShift(x % 0x1_0000 - y % 0x1_0000, k);
  }

  lemma LowBitsShift(v: int, k: int)
    ensures (v + k * 0x1_0000) % 0x1_0000 == v % 0x1_0000
  {
  }

  /** An allowed move from a cell of the board targets a cell of the
      board. */
  lemma AllowedTargetOnBoard(bitset: seq<bv16>, masks: seq<bv16>, cell: Walls.Cell, x: Fixed, y: Fixed, d: Direction)
    requires |bitset| == Walls.Height && |masks| == Walls.Width && OnBoard(x, y)
    requires Allowed(bitset, masks, cell, GridCell(y), GridCell(x), d)
    ensures OnBoard(StepX(x, d), StepY(y, d))
  {
    match d {
      case Up =>
        StepBack(y, Walls.Height);
      case Down =>
        assert GridCell(y) + 1 < Walls.Height;
        StepForward(y, Walls.Height);
      case Left =>
        assert GridCell(x) > 0;
        StepBack(x, Walls.Width);
      case Right =>
        assert GridCell(x) + 1 < Walls.Width;
        StepForward(x, Walls.Width);
    }
  }

  /** One cell back or forward stays on a cell when there is one. */
  lemma StepBack(x: Fixed, n: nat)
    requires Unsigned(x) % 0x1000 == 0 && Unsigned(x) < n * 0x1000 && GridCell(x) > 0
    ensures Unsigned(Sub(x, GridSize)) % 0x1000 == 0 && Unsigned(Sub(x, GridSize)) < n * 0x1000
  {
    UnsignedSub(x, GridSize);
    CellBack(Unsigned(x));
  }

  lemma StepForward(x: Fixed, n: nat)
    requires n <= 12 && Unsigned(x) % 0x1000 == 0 && GridCell(x) + 1 < n
    ensures Unsigned(Add(x, GridSize)) % 0x1000 == 0 && Unsigned(Add(x, GridSize)) < n * 0x1000
  {
    UnsignedAdd(x, GridSize);
    CellForward(Unsigned(x), n);
  }

  /** One cell back from a cell other than the first. */
  lemma CellBack(u: nat)
    requires u % 0x1000 == 0 && 0x1000 <= u < 0x1_0000
    ensures (u - 0x1000) % 0x1_0000 == u - 0x1000 && (u - 0x1000) % 0x1000 == 0
  {
  }

  /** One cell forward from a cell other than the last of n. */
  lemma CellForward(u: nat, n: nat)
    requires u % 0x1000 == 0 && n <= 12 && u / 0x1000 + 1 < n
    ensures (u + 0x1000) % 0x1_0000 == u + 0x1000 && (u + 0x1000) % 0x1000 == 0
    ensures (u + 0x1000) < n * 0x1000
  {
  }

  /** Moving has arrived: the comparison of update for the current
      direction (player.cpp:130-177); right and down compare after the
      step, up and left before it. */
  predicate Arrives(moving: Direction, x: Fixed, y: Fixed, targetX: Fixed, targetY: Fixed, speed: Fixed) {
    match moving
    case Up => LessEq(y, Add(targetY, speed))
    case Right => GreaterEq(Add(x, speed), targetX)
    case Down => GreaterEq(Add(y, speed), targetY)
    case Left => LessEq(x, Add(targetX, speed))
    case None => false
  }

  /** The first four digit tiles of int_to_text in player.cpp (player.cpp:
      326-379): the tile starts at the tile of 0 and gains 8, 4, 2 and 1 as
      8, 4, 2 and 1 times the place value can still be taken away. Below
      ten times the place this is the digit's tile and the remainder. */
  method DigitByAdding(value: u16, place: nat) returns (tile: u8, rest: u16)
    requires place == 1000 || place == 100 || place == 10
    ensures Charset.DigitsBaseTile <= tile <= Charset.DigitsBaseTile + 15 && rest <= value
    ensures value < 10 * place ==> tile == Utils.DigitTile(value / place) && rest == value % place
  {
    tile := Charset.DigitsBaseTile;
    rest := value;
    if rest >= 8 * place {
      tile := tile + 8;
      rest := rest - 8 * place;
    }
    if rest >= 4 * place {
      tile := tile + 4;
      rest := rest - 4 * place;
    }
    if rest >= 2 * place {
      tile := tile + 2;
      rest := rest - 2 * place;
    }
    if rest >= place {
      tile := tile + 1;
      rest := rest - place;
    }
    if value < 10 * place {
      Utils.DivModUnique(value, place, tile - Charset.DigitsBaseTile, rest);
    }
  }

  /** int_to_text of player.cpp (player.cpp:324-389): the four score tiles
      for a value up to 9999, the same as utils.cpp's; only the first four
      entries are written. */
  method IntToText(scoreText: array<u8>, value: u16)
    requires scoreText.Length >= 4
    modifies scoreText
    ensures value <= 9999 ==> scoreText[..4] == Utils.ScoreTiles(value)
    ensures scoreText[4..] == old(scoreText[4..])
  {
    var t0, v0 := DigitByAdding(value, 1000);
    scoreText[0] := t0;
    var t1, v1 := DigitByAdding(v0, 100);
    scoreText[1] := t1;
    var t2, v2 := DigitByAdding(v1, 10);
    scoreText[2] := t2;
    scoreText[3] := ToU8(Charset.DigitsBaseTile + ToU8(v2));
    ghost var digits := scoreText[..4];
    assert digits == Utils.Seq4(t0, t1, t2, ToU8(Charset.DigitsBaseTile + ToU8(v2)));
    Utils.DarkenLeadingZeros(scoreText);
    if value <= 9999 {
      DigitTilesOfValue(value, t0, v0, t1, v1, t2, v2);
      Utils.DarkenedDigitsAreScoreTiles(value, digits);
    }
  }

  /** The four tiles the digit steps produce are the tiles of the four
      decimal digits. */
  lemma DigitTilesOfValue(value: nat, t0: u8, v0: nat, t1: u8, v1: nat, t2: u8, v2: nat)
    requires value <= 9999
    requires t0 == Utils.DigitTile(value / 1000) && v0 == value % 1000
    requires t1 == Utils.DigitTile(v0 / 100) && v1 == v0 % 100
    requires t2 == Utils.DigitTile(v1 / 10) && v2 == v1 % 10
    ensures var ds := Utils.Digits4(value);
      Utils.Seq4(t0, t1, t2, ToU8(Charset.DigitsBaseTile + ToU8(v2)))
      == Utils.Seq4(Utils.DigitTile(ds[0]), Utils.DigitTile(ds[1]), Utils.DigitTile(ds[2]), Utils.DigitTile(ds[3]))
  {
    Utils.TileOfDigit(v2);
  }

  /** u8_to_text of player.cpp (player.cpp:391-416): for a value below 100
      the tens tile, dimmed when zero, and the units tile, the same as
      utils.cpp's; only the first two entries are written. */
  method U8ToText(scoreText: array<u8>, value: u8)
    requires scoreText.Length >= 2
    modifies scoreText
    ensures value < 100 ==> scoreText[..2] == Utils.TwoDigitTiles(value)
    ensures scoreText[2..] == old(scoreText[2..])
  {
    var t, v := DigitByAdding(value, 10);
    scoreText[0] := t;
    scoreText[1] := ToU8(Charset.DigitsBaseTile + ToU8(v));
    if scoreText[0] == Charset.DigitsBaseTile {
      scoreText[0] := Utils.DarkZeroTile;
    }
    if value < 100 {
      Utils.TileOfDigit(v);
    }
  }

  class Player {
    /** The board the player walks on; the player only reads it. */
    const board: Board.Board
    var facing: Direction
    var moving: Direction
    var targetX: Fixed
    var targetY: Fixed
    var energy: u8
    var energyTimer: s16
    var originalEnergy: u8
    var state: State
    var x: Fixed
    var y: Fixed
    var score: u16
    var lines: u8
    var bufferedInput: Buttons

    /** Energy stays within 0..MAX_ENERGY and the timer within one period;
        the player faces left or right; an idle player stands on a cell of
        the board, and a moving one heads for a cell of the board along one
        axis. */
    ghost predicate Valid()
      reads this, board
    {
      board.Valid()
      && energy <= MaxEnergy && 0 <= energyTimer < EnergyTicks
      && (facing == Left || facing == Right)
      && (state == Idle ==> OnBoard(x, y))
      && (state == Moving ==>
            moving != Direction.None && OnBoard(targetX, targetY)
            && ((moving == Up || moving == Down) ==> x == targetX)
            && ((moving == Left || moving == Right) ==> y == targetY))
    }

    /** Player(board, starting_x, starting_y) (player.cpp:18-22). */
    constructor(board: Board.Board, startingX: Fixed, startingY: Fixed)
      requires board.Valid()
      ensures this.board == board && x == startingX && y == startingY
      ensures facing == Right && moving == Right && state == Idle
      ensures energy == StartingEnergy && originalEnergy == StartingEnergy && energyTimer == 0
      ensures score == 0 && lines == 0 && bufferedInput == NoButtons
      ensures OnBoard(startingX, startingY) ==> Valid()
    {
      this.board := board;
      facing := Right;
      moving := Right;
      energy := StartingEnergy;
      energyTimer := 0;
      originalEnergy := StartingEnergy;
      state := Idle;
      x := startingX;
      y := startingY;
      targetX := startingX;
      targetY := startingY;
      score := 0;
      lines := 0;
      bufferedInput := NoButtons;
    }

    /** energy_upkeep (player.cpp:26-37): the timer advances by delta as an
        int16_t, and each whole period on it costs one unit of energy until
        a period finds none left. */
    method EnergyUpkeep(delta: s16)
      modifies this`energy, this`energyTimer
      ensures energy == Upkeep(old(energy), ToS16(old(energyTimer) + delta)).0
      ensures energyTimer == Upkeep(old(energy), ToS16(old(energyTimer) + delta)).1
    {
      ghost var goal := Upkeep(energy, ToS16(energyTimer + delta));
      energyTimer := ToS16(energyTimer + delta);
      while energyTimer >= EnergyTicks
        invariant Upkeep(energy, energyTimer) == goal
        decreases energyTimer
      {
        energyTimer := energyTimer - EnergyTicks;
        if energy == 0 {
          break;
        }
        energy := energy - 1;
      }
    }

    /** feed (player.cpp:231-240): the timer restarts and the energy grows
        by the nutrition, capped at MAX_ENERGY. */
    method Feed(nutrition: u8)
      requires Valid()
      modifies this`energy, this`energyTimer
      ensures Valid()
      ensures energyTimer == 0
      ensures energy == Min(old(energy) + nutrition, MaxEnergy)
    {
      energyTimer := 0;
      if energy < MaxEnergy - nutrition {
        energy := energy + nutrition;
      } else {
        energy := MaxEnergy;
      }
    }

    /** The state check_idle (player.cpp:64-121) leaves, from the buffered
        press, direction, facing and target it started with: a stored press
        stands in for an empty one and is used up; the player's cell is read
        from its position; in the player's input mode the first requested
        and allowed direction starts a move of one cell, and otherwise the
        player stops. The position is not changed. */
    ghost predicate IdleOutcome(mode: InputMode, pressed: Buttons, held: Buttons, buffered0: Buttons,
                                moving0: Direction, facing0: Direction, targetX0: Fixed, targetY0: Fixed)
      requires Valid() && OnBoard(x, y)
      reads this, board, board.occupiedBitset, board.cell
    {
      && bufferedInput == (if pressed == NoButtons then NoButtons else buffered0)
      && (mode != PlayerMode ==>
            state == Idle && moving == moving0 && facing == facing0 && targetX == targetX0 && targetY == targetY0)
      && (mode == PlayerMode ==>
            var p := if pressed == NoButtons then buffered0 else pressed;
            var row := GridCell(y);
            var column := GridCell(x);
            var d := IdleChoice(board.occupiedBitset[..], board.masks, board.cell[Walls.At(row, column)],
                                row, column, p, held, moving0);
            moving == d && facing == NewFacing(facing0, d, p, held, moving0)
            && (d == Direction.None ==> state == Idle && targetX == targetX0 && targetY == targetY0)
            && (d != Direction.None ==> state == Moving && targetX == StepX(x, d) && targetY == StepY(y, d)))
    }

    /** check_idle (player.cpp:64-121), as IdleOutcome describes it. */
    method CheckIdle(mode: InputMode, pressed: Buttons, held: Buttons)
      requires Valid() && state == Idle
      modifies this`bufferedInput, this`facing, this`moving, this`targetX, this`targetY, this`state
      ensures Valid() && x == old(x) && y == old(y) && OnBoard(x, y)
      ensures IdleOutcome(mode, pressed, held, old(bufferedInput), old(moving), old(facing), old(targetX), old(targetY))
    {
      var p := pressed;
      if p == NoButtons && bufferedInput != NoButtons {
        p := bufferedInput;
        bufferedInput := NoButtons;
      }
      var row := GridCell(y);
      var column := GridCell(x);
      var cell := board.cell[Board.BoardIndex(row, column)];
      assert Board.BoardIndex(row, column) == Walls.At(row, column);
      if mode != PlayerMode {
        return;
      }
      ChooseMove(p, held, row, column, cell);
    }

    /** The tests of check_idle (player.cpp:78-120): the move IdleChoice
        picks starts, or the player stops; left and right requests turn the
        player as NewFacing says. */
    method ChooseMove(p: Buttons, held: Buttons, row: nat, column: nat, cell: Walls.Cell)
      requires Valid() && state == Idle && row == GridCell(y) && column == GridCell(x)
      modifies this`facing, this`moving, this`targetX, this`targetY, this`state
      ensures Valid()
      ensures var d := IdleChoice(board.occupiedBitset[..], board.masks, cell, row, column, p, held, old(moving));
        moving == d && facing == NewFacing(old(facing), d, p, held, old(moving))
        && (d == Direction.None ==> state == Idle && targetX == old(targetX) && targetY == old(targetY))
        && (d != Direction.None ==> state == Moving && targetX == StepX(x, d) && targetY == StepY(y, d))
    {
      var bitset := board.occupiedBitset[..];
      var d := IdleChoice(bitset, board.masks, cell, row, column, p, held, moving);
      facing := NewFacing(facing, d, p, held, moving);
      if d != Direction.None {
        AllowedTargetOnBoard(bitset, board.masks, cell, x, y, d);
        Start(d);
      } else {
        moving := Direction.None;
      }
    }

    /** A move of one cell begins: the target is the neighbouring cell
        along d. */
    method Start(d: Direction)
      requires d != Direction.None
      modifies this`moving, this`targetX, this`targetY, this`state
      ensures moving == d && state == Moving && targetX == StepX(x, d) && targetY == StepY(y, d)
    {
      moving := d;
      targetX := StepX(x, d);
      targetY := StepY(y, d);
      state := Moving;
    }

    /** One frame of a move (player.cpp:129-177): the position steps by the
        move speed toward the target, and on arrival is set to the target
        itself, a cell of the board. */
    method Glide() returns (arrived: bool)
      requires Valid() && state == Moving
      modifies this`x, this`y
      ensures Valid()
      ensures arrived == Arrives(moving, old(x), old(y), targetX, targetY, MoveSpeed)
      ensures arrived ==> x == targetX && y == targetY && OnBoard(x, y)
      ensures !arrived ==> x == GlideX(old(x), moving, MoveSpeed) && y == GlideY(old(y), moving, MoveSpeed)
    {
      arrived := false;
      match moving {
        case Up =>
          if LessEq(y, Add(targetY, MoveSpeed)) {
            y := targetY;
            arrived := true;
          } else {
            y := Sub(y, MoveSpeed);
          }
        case Right =>
          x := Add(x, MoveSpeed);
          if GreaterEq(x, targetX) {
            x := targetX;
            arrived := true;
          }
        case Down =>
          y := Add(y, MoveSpeed);
          if GreaterEq(y, targetY) {
            y := targetY;
            arrived := true;
          }
        case Left =>
          if LessEq(x, Add(targetX, MoveSpeed)) {
            x := targetX;
            arrived := true;
          } else {
            x := Sub(x, MoveSpeed);
          }
        case None =>
      }
    }

    /** The press handling at the top of the Moving case (player.cpp:
        123-128): a fresh press is stored, and an empty held sample takes
        the stored press. */
    method StorePress(pressed: Buttons, held: Buttons) returns (h: Buttons)
      modifies this`bufferedInput
      ensures bufferedInput == if pressed == NoButtons then old(bufferedInput) else pressed
      ensures h == if held == NoButtons then bufferedInput else held
    {
      if pressed != NoButtons {
        bufferedInput := pressed;
      }
      h := held;
      if h == NoButtons && bufferedInput != NoButtons {
        h := Or(h, bufferedInput);
      }
    }

    /** The arrival branch (player.cpp:131-137 and the three like it): the
        player turns idle, stops unless a direction is held, and goes
        through check_idle in the same frame. */
    method Arrive(mode: InputMode, pressed: Buttons, held: Buttons)
      requires Valid() && OnBoard(x, y)
      modifies this`bufferedInput, this`facing, this`moving, this`targetX, this`targetY, this`state
      ensures Valid() && x == old(x) && y == old(y) && OnBoard(x, y)
      ensures IdleOutcome(mode, pressed, held, old(bufferedInput),
                          if AnyDirection(held) then old(moving) else Direction.None,
                          old(facing), old(targetX), old(targetY))
    {
      state := Idle;
      if !AnyDirection(held) {
        moving := Direction.None;
      }
      CheckIdle(mode, pressed, held);
    }

    /** The state the Moving case of update (player.cpp:122-179) leaves,
        from the state it started in: a fresh press is stored, and an empty
        held sample takes the stored press; until it arrives the player
        glides one step toward the target; on arrival it stands on the
        target cell, stops unless a direction is held, and goes through
        check_idle. */
    ghost predicate MovingOutcome(mode: InputMode, pressed: Buttons, held: Buttons, buffered0: Buttons,
                                  moving0: Direction, facing0: Direction, x0: Fixed, y0: Fixed,
                                  targetX0: Fixed, targetY0: Fixed)
      requires Valid()
      reads this, board, board.occupiedBitset, board.cell
    {
      var stored := if pressed == NoButtons then buffered0 else pressed;
      var h := if held == NoButtons then stored else held;
      if !Arrives(moving0, x0, y0, targetX0, targetY0, MoveSpeed) then
        state == Moving && moving == moving0 && facing == facing0 && bufferedInput == stored
        && targetX == targetX0 && targetY == targetY0
        && x == GlideX(x0, moving0, MoveSpeed) && y == GlideY(y0, moving0, MoveSpeed)
      else
        x == targetX0 && y == targetY0 && OnBoard(x, y)
        && IdleOutcome(mode, pressed, h, stored, if AnyDirection(h) then moving0 else Direction.None,
                       facing0, targetX0, targetY0)
    }

    /** The Moving case of update (player.cpp:122-179), as MovingOutcome
        describes it. */
    method MovingStep(mode: InputMode, pressed: Buttons, held: Buttons)
      requires Valid() && state == Moving
      modifies this`bufferedInput, this`facing, this`moving, this`targetX, this`targetY, this`state, this`x, this`y
      ensures Valid()
      ensures MovingOutcome(mode, pressed, held, old(bufferedInput), old(moving), old(facing), old(x), old(y),
                            old(targetX), old(targetY))
    {
      var h := StorePress(pressed, held);
      var arrived := Glide();
      if arrived {
        Arrive(mode, pressed, h);
      }
    }

    /** update (player.cpp:39-181): the upkeep of one frame, then the idle
        or moving step with the selected pad. Energy drops by one every 240
        frames, never below zero, and the player stays on the board. */
    method Update(mode: InputMode, scheme: ControllerScheme, pad0: Pad, pad1: Pad)
      requires Valid()
      modifies this`energy, this`energyTimer, this`bufferedInput, this`facing, this`moving,
               this`targetX, this`targetY, this`state, this`x, this`y
      ensures Valid()
      ensures energyTimer == (old(energyTimer) + 1) % EnergyTicks
      ensures energy == if old(energyTimer) == EnergyTicks - 1 && old(energy) > 0 then old(energy) - 1 else old(energy)
      ensures var pad := SelectPad(scheme, mode, pad0, pad1);
        old(state) == Idle ==>
          x == old(x) && y == old(y) && OnBoard(x, y)
          && IdleOutcome(mode, pad.pressed, pad.held, old(bufferedInput), old(moving), old(facing),
                         old(targetX), old(targetY))
      ensures var pad := SelectPad(scheme, mode, pad0, pad1);
        old(state) == Moving ==>
          MovingOutcome(mode, pad.pressed, pad.held, old(bufferedInput), old(moving), old(facing), old(x), old(y),
                        old(targetX), old(targetY))
    {
      FrameUpkeep();
      var pad := SelectPad(scheme, mode, pad0, pad1);
      Step(mode, pad.pressed, pad.held);
    }

    /** energy_upkeep(1), the first statement of update (player.cpp:41). */
    method FrameUpkeep()
      requires Valid()
      modifies this`energy, this`energyTimer
      ensures Valid()
      ensures energyTimer == (old(energyTimer) + 1) % EnergyTicks
      ensures energy == if old(energyTimer) == EnergyTicks - 1 && old(energy) > 0 then old(energy) - 1 else old(energy)
    {
      UpkeepOneFrame(energy, energyTimer);
      EnergyUpkeep(1);
    }

    /** The switch on the state in update (player.cpp:62-180). */
    method Step(mode: InputMode, pressed: Buttons, held: Buttons)
      requires Valid()
      modifies this`bufferedInput, this`facing, this`moving, this`targetX, this`targetY, this`state, this`x, this`y
      ensures Valid()
      ensures old(state) == Idle ==>
        x == old(x) && y == old(y) && OnBoard(x, y)
        && IdleOutcome(mode, pressed, held, old(bufferedInput), old(moving), old(facing), old(targetX), old(targetY))
      ensures old(state) == Moving ==>
        MovingOutcome(mode, pressed, held, old(bufferedInput), old(moving), old(facing), old(x), old(y),
                      old(targetX), old(targetY))
    {
      if state == Idle {
        CheckIdle(mode, pressed, held);
      } else {
        MovingStep(mode, pressed, held);
      }
    }

    /** refresh_score_hud (player.cpp:419-435): the stage's high score rises
        to the score when the score beats it, and the HUD shows the score,
        the high score and the lines. */
    method RefreshScoreHud(highScore: array<u16>, maze: nat) returns (scoreText: seq<u8>, highText: seq<u8>, linesText: seq<u8>)
      requires maze < highScore.Length
      modifies highScore
      ensures highScore[maze] == if score > old(highScore[maze]) then score else old(highScore[maze])
      ensures forall k :: 0 <= k < highScore.Length && k != maze ==> highScore[k] == old(highScore[k])
      ensures score <= 9999 ==> scoreText == Utils.ScoreTiles(score)
      ensures highScore[maze] <= 9999 ==> highText == Utils.ScoreTiles(highScore[maze])
      ensures lines < 100 ==> linesText == Utils.TwoDigitTiles(lines)
    {
      var text := new u8[4];
      IntToText(text, score);
      scoreText := text[..4];
      if score > highScore[maze] {
        highScore[maze] := score;
      }
      IntToText(text, highScore[maze]);
      highText := text[..4];
      U8ToText(text, lines);
      linesText := text[..2];
    }
  }

  /** The position after one frame of gliding without arriving. */
  function GlideX(x: Fixed, d: Direction, speed: Fixed): Fixed {
    match d
    case Left => Sub(x, speed)
    case Right => Add(x, speed)
    case _ => x
  }

  function GlideY(y: Fixed, d: Direction, speed: Fixed): Fixed {
    match d
    case Up => Sub(y, speed)
    case Down => Add(y, speed)
    case _ => y
  }
}
