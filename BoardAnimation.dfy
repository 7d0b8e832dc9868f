/** The block animations of src/board-animation.cpp: a table of frames,
    each a cell picture held for its duration, ending in a frame of
    duration 0 that finishes the animation where it stands. */
module BoardAnimation {
  import opened Common

  /** CellType (cell.hpp:5-11). */
  datatype CellType = Maze | Marshmallow | Jiggling | LeanLeft | LeanRight

  /** BoardAnimFrame (board-animation.hpp:11-17), with the cell-type side
      of its union: every table of board-animation.cpp uses that side. */
  datatype BoardAnimFrame = BoardAnimFrame(cellType: CellType, duration: u8)

  /** The tables of board-animation.cpp:10-40. */
  const BlockJiggle: seq<BoardAnimFrame> := [
    BoardAnimFrame(Jiggling, 8), BoardAnimFrame(Marshmallow, 8),
    BoardAnimFrame(Jiggling, 8), BoardAnimFrame(Marshmallow, 0)]
  const BlockMoveRight: seq<BoardAnimFrame> := [BoardAnimFrame(LeanLeft, 4), BoardAnimFrame(Maze, 0)]
  const BlockMoveLeft: seq<BoardAnimFrame> := [BoardAnimFrame(LeanRight, 4), BoardAnimFrame(Maze, 0)]
  const BlockArriveRight: seq<BoardAnimFrame> := [
    BoardAnimFrame(Maze, 4), BoardAnimFrame(LeanLeft, 4), BoardAnimFrame(LeanRight, 4),
    BoardAnimFrame(LeanLeft, 4), BoardAnimFrame(Marshmallow, 0)]
  const BlockArriveLeft: seq<BoardAnimFrame> := [
    BoardAnimFrame(Maze, 4), BoardAnimFrame(LeanRight, 4), BoardAnimFrame(LeanLeft, 4),
    BoardAnimFrame(LeanRight, 4), BoardAnimFrame(Marshmallow, 0)]
  const BlockBreakRight: seq<BoardAnimFrame> := [
    BoardAnimFrame(LeanLeft, 4), BoardAnimFrame(LeanRight, 4), BoardAnimFrame(LeanLeft, 4),
    BoardAnimFrame(Maze, 0)]
  const BlockBreakLeft: seq<BoardAnimFrame> := [
    BoardAnimFrame(LeanRight, 4), BoardAnimFrame(LeanLeft, 4), BoardAnimFrame(LeanRight, 4),
    BoardAnimFrame(Maze, 0)]

  /** A table that ends: its last frame, and only that one, has duration
      0, so the frame pointer never runs past it. */
  predicate Terminated(frames: seq<BoardAnimFrame>) {
    |frames| >= 1 && frames[|frames| - 1].duration == 0
    && forall i :: 0 <= i < |frames| - 1 ==> frames[i].duration > 0
  }

  /** Where an animation stands: the frame of the table, the count within
      it, and the finished flag. */
  datatype Position = Position(cell: nat, frame: u8, finished: bool)

  /** The position the table constructor gives (board-animation.cpp:
      44-47). */
  const Start := Position(0, 0, false)

  /** A position the animation can be in: a frame of the table, with a
      count below its duration, or 0 on the final frame. */
  predicate Reachable(frames: seq<BoardAnimFrame>, p: Position) {
    Terminated(frames) && p.cell < |frames|
    && (frames[p.cell].duration == 0 ==> p.frame == 0)
    && (frames[p.cell].duration > 0 ==> p.frame < frames[p.cell].duration)
  }

  /** One unpaused update (board-animation.cpp:49-59): a finished
      animation stays as it is; a frame of duration 0 finishes it in
      place; otherwise the count goes up and, at the frame's duration,
      restarts on the next frame. */
  function Step(frames: seq<BoardAnimFrame>, p: Position): (q: Position)
    requires Reachable(frames, p)
    ensures Reachable(frames, q)
    ensures p.finished ==> q == p
    ensures !p.finished && frames[p.cell].duration == 0 ==> q == Position(p.cell, 0, true)
    ensures !p.finished && p.frame + 1 < frames[p.cell].duration ==> q == Position(p.cell, p.frame + 1, false)
    ensures !p.finished && frames[p.cell].duration > 0 && p.frame + 1 >= frames[p.cell].duration ==>
      q == Position(p.cell + 1, 0, false)
  {
    if p.finished then p
    else if frames[p.cell].duration == 0 then Position(p.cell, p.frame, true)
    else
      ModUnique(p.frame + 1, 0x100, 0, p.frame + 1);
      var frame := ToU8(p.frame + 1);
      if frame >= frames[p.cell].duration then Position(p.cell + 1, 0, p.finished)
      else Position(p.cell, frame, p.finished)
  }

  /** n unpaused updates. */
  function Steps(frames: seq<BoardAnimFrame>, p: Position, n: nat): (q: Position)
    requires Reachable(frames, p)
    ensures Reachable(frames, q)
  {
    if n == 0 then p else Step(frames, Steps(frames, p, n - 1))
  }

  /** The durations of the first k frames. */
  function Sum(frames: seq<BoardAnimFrame>, k: nat): nat
    requires k <= |frames|
  {
    if k == 0 then 0 else Sum(frames, k - 1) + frames[k - 1].duration
  }

  /** Before it finishes, j updates into frame k the animation is on
      frame k with count j. */
  lemma {:induction false} Running(frames: seq<BoardAnimFrame>, k: nat, j: nat)
    requires Terminated(frames) && k < |frames|
    requires (frames[k].duration == 0 && j == 0) || j < frames[k].duration
    ensures Steps(frames, Start, Sum(frames, k) + j) == Position(k, j, false)
    decreases k, j
  {
    var n := Sum(frames, k) + j;
    if j > 0 {
      Running(frames, k, j - 1);
      var p := Steps(frames, Start, n - 1);
      assert Steps(frames, Start, n) == Step(frames, p);
      assert p.frame + 1 < frames[p.cell].duration;
    } else if k > 0 {
      assert frames[k - 1].duration > 0;
      Running(frames, k - 1, frames[k - 1].duration - 1);
      var p := Steps(frames, Start, n - 1);
      assert Steps(frames, Start, n) == Step(frames, p);
      assert p.frame + 1 >= frames[p.cell].duration;
    }
  }

  /** From its start an animation finishes on exactly the update after
      all its durations have elapsed, on its final frame, and then stays
      so. */
  lemma {:induction false} FinishesAfterDurations(frames: seq<BoardAnimFrame>, n: nat)
    requires Terminated(frames)
    ensures var last := |frames| - 1;
      Steps(frames, Start, Sum(frames, |frames|) + 1) == Position(last, 0, true)
    ensures n <= Sum(frames, |frames|) ==> !Steps(frames, Start, n).finished
    ensures n > Sum(frames, |frames|) ==> Steps(frames, Start, n) == Position(|frames| - 1, 0, true)
  {
    var total := Sum(frames, |frames|);
    EndsAfterTotal(frames);
    if n <= total {
      var k, j := Split(frames, |frames|, n);
      Running(frames, k, j);
    } else {
      StaysFinished(frames, total + 1, n);
    }
  }

  lemma {:induction false} EndsAfterTotal(frames: seq<BoardAnimFrame>)
    requires Terminated(frames)
    ensures Steps(frames, Start, Sum(frames, |frames|) + 1) == Position(|frames| - 1, 0, true)
  {
    var last := |frames| - 1;
    var total := Sum(frames, |frames|);
    assert total == Sum(frames, last);
    Running(frames, last, 0);
    assert Steps(frames, Start, total + 1) == Step(frames, Steps(frames, Start, total));
  }

  /** A count up to the total falls j updates into some frame k. */
  lemma {:induction false} Split(frames: seq<BoardAnimFrame>, m: nat, n: nat) returns (k: nat, j: nat)
    requires Terminated(frames) && 1 <= m <= |frames| && n <= Sum(frames, m)
    requires m < |frames| ==> n < Sum(frames, m)
    ensures k < m && n == Sum(frames, k) + j
    ensures (frames[k].duration == 0 && j == 0) || j < frames[k].duration
  {
    if n >= Sum(frames, m - 1) {
      k, j := m - 1, n - Sum(frames, m - 1);
    } else {
      k, j := Split(frames, m - 1, n);
    }
  }

  /** A finished animation does not change. */
  lemma {:induction false} StaysFinished(frames: seq<BoardAnimFrame>, a: nat, b: nat)
    requires Terminated(frames) && a <= b && Steps(frames, Start, a).finished
    ensures Steps(frames, Start, b) == Steps(frames, Start, a)
    decreases b - a
  {
    if a < b {
      StaysFinished(frames, a, b - 1);
    }
  }

  /** The tables all end, and finish after their durations plus one:
      the jiggle after 25 updates, a move after 5, an arrival after 17
      and a break after 13. */
  lemma BlockJiggleFinishes()
    ensures Steps(BlockJiggle, Start, 25).finished && !Steps(BlockJiggle, Start, 24).finished
  {
    assert Sum(BlockJiggle, 1) == 8;
    assert Sum(BlockJiggle, 2) == 16;
    assert Sum(BlockJiggle, 3) == 24;
    assert Sum(BlockJiggle, 4) == 24;
    FinishesAfterDurations(BlockJiggle, 24);
  }

  lemma BlockMoveRightFinishes()
    ensures Steps(BlockMoveRight, Start, 5).finished && !Steps(BlockMoveRight, Start, 4).finished
  {
    assert Sum(BlockMoveRight, 1) == 4;
    assert Sum(BlockMoveRight, 2) == 4;
    FinishesAfterDurations(BlockMoveRight, 4);
  }

  lemma BlockMoveLeftFinishes()
    ensures Steps(BlockMoveLeft, Start, 5).finished && !Steps(BlockMoveLeft, Start, 4).finished
  {
    assert Sum(BlockMoveLeft, 1) == 4;
    assert Sum(BlockMoveLeft, 2) == 4;
    FinishesAfterDurations(BlockMoveLeft, 4);
  }

  lemma BlockArriveRightFinishes()
    ensures Steps(BlockArriveRight, Start, 17).finished && !Steps(BlockArriveRight, Start, 16).finished
  {
    assert Sum(BlockArriveRight, 1) == 4;
    assert Sum(BlockArriveRight, 2) == 8;
    assert Sum(BlockArriveRight, 3) == 12;
    assert Sum(BlockArriveRight, 4) == 16;
    assert Sum(BlockArriveRight, 5) == 16;
    FinishesAfterDurations(BlockArriveRight, 16);
  }

  lemma BlockArriveLeftFinishes()
    ensures Steps(BlockArriveLeft, Start, 17).finished && !Steps(BlockArriveLeft, Start, 16).finished
  {
    assert Sum(BlockArriveLeft, 1) == 4;
    assert Sum(BlockArriveLeft, 2) == 8;
    assert Sum(BlockArriveLeft, 3) == 12;
    assert Sum(BlockArriveLeft, 4) == 16;
    assert Sum(BlockArriveLeft, 5) == 16;
    FinishesAfterDurations(BlockArriveLeft, 16);
  }

  lemma BlockBreakRightFinishes()
    ensures Steps(BlockBreakRight, Start, 13).finished && !Steps(BlockBreakRight, Start, 12).finished
  {
    assert Sum(BlockBreakRight, 1) == 4;
    assert Sum(BlockBreakRight, 2) == 8;
    assert Sum(BlockBreakRight, 3) == 12;
    assert Sum(BlockBreakRight, 4) == 12;
    FinishesAfterDurations(BlockBreakRight, 12);
  }

  lemma BlockBreakLeftFinishes()
    ensures Steps(BlockBreakLeft, Start, 13).finished && !Steps(BlockBreakLeft, Start, 12).finished
  {
    assert Sum(BlockBreakLeft, 1) == 4;
    assert Sum(BlockBreakLeft, 2) == 8;
    assert Sum(BlockBreakLeft, 3) == 12;
    assert Sum(BlockBreakLeft, 4) == 12;
    FinishesAfterDurations(BlockBreakLeft, 12);
  }

  class BoardAnimation {
    const cells: seq<BoardAnimFrame>
    const row: u8
    const column: u8
    var currentCell: nat
    var currentFrame: u8
    var finished: bool

    /** Without a table the animation is finished; with one, it stands at
        a position it can reach. */
    ghost predicate Valid()
      reads this
    {
      (cells == [] ==> finished) && (cells != [] ==> Reachable(cells, Pos()))
    }

    function Pos(): Position
      reads this
    {
      Position(currentCell, currentFrame, finished)
    }

    /** BoardAnimation() (board-animation.cpp:42): no table, finished. */
    constructor Default()
      ensures Valid() && cells == [] && finished
    {
      cells := [];
      row := 0;
      column := 0;
      currentCell := 0;
      currentFrame := 0;
      finished := true;
    }

    /** BoardAnimation(cells, row, column) (board-animation.cpp:44-47):
        the first frame of the table, not finished. */
    constructor(cells: seq<BoardAnimFrame>, row: u8, column: u8)
      requires Terminated(cells)
      ensures Valid() && this.cells == cells && this.row == row && this.column == column
      ensures Pos() == Start
    {
      this.cells := cells;
      this.row := row;
      this.column := column;
      currentCell := 0;
      currentFrame := 0;
      finished := false;
    }

    /** update (board-animation.cpp:49-59): nothing changes while paused or
        once finished; otherwise one Step. */
    method Update(paused: bool)
      requires Valid()
      modifies this
      ensures Valid()
      ensures paused || old(finished) ==> Pos() == old(Pos())
      ensures !paused && !old(finished) ==> Pos() == Step(cells, old(Pos()))
    {
      if paused || finished {
        return;
      }
      if cells[currentCell].duration == 0 {
        finished := true;
      } else {
        currentFrame := ToU8(currentFrame + 1);
        if currentFrame >= cells[currentCell].duration {
          currentFrame := 0;
          currentCell := currentCell + 1;
        }
      }
    }
  }
}
