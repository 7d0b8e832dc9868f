/** The sprite animations of src/animation.cpp and the inline version in
    src/animation.hpp: a table of cells, each shown for its duration in
    frames, played in a loop; `finished` is raised when the loop first
    wraps and stays up until a reset. The metasprite drawing is left out;
    a metasprite is only an identifier here. */
module Animation {
  import opened Common

  /** AnimCell (animation.hpp:6-9). */
  datatype AnimCell = AnimCell(metasprite: nat, duration: u8)

  /** Where an animation stands: the frame within the cell, the cell, and
      the finished flag. */
  datatype Position = Position(frame: u8, cell: nat, finished: bool)

  /** The position the constructors and reset give. */
  const Start := Position(0, 0, false)

  /** A table the animation can play: `length` cells, at least one. */
  predicate Playable(cells: seq<AnimCell>, length: u8) {
    1 <= length <= |cells|
  }

  /** The frames a cell stays on screen: its duration, and one frame for a
      duration of 0, since the frame counter is tested after it has been
      incremented. */
  function Life(cells: seq<AnimCell>, k: nat): (n: nat)
    requires k < |cells|
    ensures n >= 1
  {
    if cells[k].duration == 0 then 1 else cells[k].duration
  }

  /** A position the animation can be in: a cell of the table, and a frame
      count still below the cell's life. */
  predicate Reachable(cells: seq<AnimCell>, length: u8, p: Position) {
    Playable(cells, length) && p.cell < length && p.frame < Life(cells, p.cell)
  }

  /** One unpaused update (animation.cpp:25-36, animation.hpp:31-39): the
      frame counter goes up; once it reaches the cell's duration it
      restarts and the next cell comes, and past the last cell the
      animation wraps to the first and is finished. `finished` is never
      lowered. */
  function Step(cells: seq<AnimCell>, length: u8, p: Position): (q: Position)
    requires Reachable(cells, length, p)
    ensures Reachable(cells, length, q)
    ensures p.finished ==> q.finished
    ensures p.frame + 1 < cells[p.cell].duration ==> q == Position(p.frame + 1, p.cell, p.finished)
    ensures p.frame + 1 >= cells[p.cell].duration ==>
      q.frame == 0 && q.cell == (if p.cell + 1 == length as nat then 0 else p.cell + 1)
      && q.finished == (p.finished || p.cell + 1 == length as nat)
  {
    ModUnique(p.frame + 1, 0x100, 0, p.frame + 1);
    var frame := ToU8(p.frame + 1);
    if frame >= cells[p.cell].duration then
      if p.cell + 1 == length then Position(0, 0, true)
      else Position(0, p.cell + 1, p.finished)
    else Position(frame, p.cell, p.finished)
  }

  /** n unpaused updates. */
  function Steps(cells: seq<AnimCell>, length: u8, p: Position, n: nat): (q: Position)
    requires Reachable(cells, length, p)
    ensures Reachable(cells, length, q)
  {
    if n == 0 then p else Step(cells, length, Steps(cells, length, p, n - 1))
  }

  /** The frames the first k cells last together. */
  function Elapsed(cells: seq<AnimCell>, k: nat): nat
    requires k <= |cells|
  {
    if k == 0 then 0 else Elapsed(cells, k - 1) + Life(cells, k - 1)
  }

  /** Before the loop wraps, j frames into cell k the animation shows cell
      k at frame j and is not finished. */
  lemma {:induction false} Running(cells: seq<AnimCell>, length: u8, k: nat, j: nat)
    requires Playable(cells, length) && k < length && j < Life(cells, k)
    ensures Steps(cells, length, Start, Elapsed(cells, k) + j) == Position(j, k, false)
    decreases k, j
  {
    var n := Elapsed(cells, k) + j;
    if j > 0 {
      Running(cells, length, k, j - 1);
      var p := Steps(cells, length, Start, n - 1);
      assert Steps(cells, length, Start, n) == Step(cells, length, p);
      assert p.frame + 1 < cells[p.cell].duration;
    } else if k > 0 {
      Running(cells, length, k - 1, Life(cells, k - 1) - 1);
      var p := Steps(cells, length, Start, n - 1);
      assert Steps(cells, length, Start, n) == Step(cells, length, p);
      assert p.frame + 1 >= cells[p.cell].duration;
    }
  }

  /** From a reset, the animation is finished exactly when the loop has
      played through every cell once: after the sum of the cells' lives it
      is back on the first cell, finished, and at no earlier update. */
  lemma {:induction false} FinishesAfterOneLoop(cells: seq<AnimCell>, length: u8, n: nat)
    requires Playable(cells, length)
    ensures Steps(cells, length, Start, Elapsed(cells, length as nat)) == Position(0, 0, true)
    ensures n < Elapsed(cells, length as nat) ==> !Steps(cells, length, Start, n).finished
  {
    Running(cells, length, length as nat - 1, Life(cells, length as nat - 1) - 1);
    if n < Elapsed(cells, length as nat) {
      var k, j := Split(cells, length as nat, n);
      Running(cells, length, k, j);
    }
  }

  /** An update count before the end of the loop falls j frames into some
      cell k. */
  lemma {:induction false} Split(cells: seq<AnimCell>, m: nat, n: nat) returns (k: nat, j: nat)
    requires m <= |cells| && n < Elapsed(cells, m)
    ensures k < m && j < Life(cells, k) && n == Elapsed(cells, k) + j
  {
    if n >= Elapsed(cells, m - 1) {
      k, j := m - 1, n - Elapsed(cells, m - 1);
    } else {
      k, j := Split(cells, m - 1, n);
    }
  }

  /** Animation (animation.cpp): the cell pointer `current_cell` is kept
      beside the index, as an offset into the table. */
  class Animation {
    const cells: seq<AnimCell>
    const length: u8
    var currentCell: nat
    var currentFrame: u8
    var currentCellIndex: u8
    var finished: bool

    /** The pointer stays on the indexed cell, and the position is one the
        animation can be in. */
    ghost predicate Valid()
      reads this
    {
      currentCell == currentCellIndex as nat && Reachable(cells, length, Pos())
    }

    function Pos(): Position
      reads this
    {
      Position(currentFrame, currentCellIndex as nat, finished)
    }

    /** Animation(cells, length) (animation.cpp:10-12). */
    constructor(cells: seq<AnimCell>, length: u8)
      requires Playable(cells, length)
      ensures this.cells == cells && this.length == length
      ensures Valid() && Pos() == Start
    {
      this.cells := cells;
      this.length := length;
      currentCell := 0;
      currentFrame := 0;
      currentCellIndex := 0;
      finished := false;
    }

    /** reset (animation.cpp:14-19): back to the first frame of the first
        cell, not finished. */
    method Reset()
      requires Playable(cells, length)
      modifies this
      ensures Valid() && Pos() == Start
    {
      currentFrame := 0;
      currentCellIndex := 0;
      currentCell := 0;
      finished := false;
    }

    /** update (animation.cpp:21-38): nothing changes while animations are
        paused; otherwise one Step. */
    method Update(paused: bool)
      requires Valid()
      modifies this
      ensures Valid()
      ensures paused ==> Pos() == old(Pos())
      ensures !paused ==> Pos() == Step(cells, length, old(Pos()))
    {
      if paused {
        return;
      }
      currentFrame := ToU8(currentFrame + 1);
      if currentFrame >= cells[currentCell].duration {
        currentFrame := 0;
        currentCellIndex := currentCellIndex + 1;
        if currentCellIndex == length {
          currentCellIndex := 0;
          currentCell := 0;
          finished := true;
        } else {
          currentCell := currentCell + 1;
        }
      }
    }
  }

  /** The inline Animation of animation.hpp: the same counters with the
      cell held only as an index, and no pause. */
  class InlineAnimation {
    const cells: seq<AnimCell>
    const length: u8
    var currentFrame: u8
    var currentCell: u8
    var finished: bool

    ghost predicate Valid()
      reads this
    {
      Reachable(cells, length, Pos())
    }

    function Pos(): Position
      reads this
    {
      Position(currentFrame, currentCell as nat, finished)
    }

    /** Animation(cells, length) (animation.hpp:19-21). */
    constructor(cells: seq<AnimCell>, length: u8)
      requires Playable(cells, length)
      ensures this.cells == cells && this.length == length
      ensures Valid() && Pos() == Start
    {
      this.cells := cells;
      this.length := length;
      currentFrame := 0;
      currentCell := 0;
      finished := false;
    }

    /** reset (animation.hpp:23-27). */
    method Reset()
      requires Playable(cells, length)
      modifies this
      ensures Valid() && Pos() == Start
    {
      currentFrame := 0;
      currentCell := 0;
      finished := false;
    }

    /** update (animation.hpp:29-40): one Step. */
    method Update()
      requires Valid()
      modifies this
      ensures Valid()
      ensures Pos() == Step(cells, length, old(Pos()))
    {
      currentFrame := ToU8(currentFrame + 1);
      if currentFrame >= cells[currentCell].duration {
        currentFrame := 0;
        currentCell := currentCell + 1;
        if currentCell == length {
          currentCell := 0;
          finished := true;
        }
      }
    }
  }
}
