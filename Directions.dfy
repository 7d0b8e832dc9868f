/** The four moves and "none" that the player and the polyomino share
    (direction.hpp is not part of this model; its values are the ones the
    game code names). */
module Directions {
  datatype Direction = Up | Right | Down | Left | None
}
