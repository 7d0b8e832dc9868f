/** The controller state the game logic reads: neslib's pad bits, one
    boolean per button, and the gameplay input mode (which of the player
    and the falling polyomino the pad drives). */
module Input {
  /** One sample of the pad: `pressed` or `held`, as `pad & PAD_X`. */
  datatype Buttons = Buttons(a: bool, b: bool, select: bool, start: bool,
                             up: bool, down: bool, left: bool, right: bool)

  /** A pad byte of 0. */
  const NoButtons := Buttons(false, false, false, false, false, false, false, false)

  /** `a | b` on pad bytes. */
  function Or(p: Buttons, q: Buttons): (r: Buttons)
    ensures r == NoButtons <==> p == NoButtons && q == NoButtons
  {
    Buttons(p.a || q.a, p.b || q.b, p.select || q.select, p.start || q.start,
            p.up || q.up, p.down || q.down, p.left || q.left, p.right || q.right)
  }

  /** `pad & (PAD_UP | PAD_DOWN | PAD_LEFT | PAD_RIGHT)` is not zero. */
  predicate AnyDirection(p: Buttons) {
    p.up || p.down || p.left || p.right
  }

  /** InputMode::Player and InputMode::Polyomino. */
  datatype InputMode = PlayerMode | PolyominoMode
}
