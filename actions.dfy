/** The input actions of the inventory: the `Action` enumeration that keys a node's
    neighbours and drives the hover cursor. */
module Actions {
  /** One command per input tick: a move in one of four directions, a selection, or nothing. */
  datatype Action = Up | Right | Down | Left | Select | None
  {
    /** The four actions that name a neighbour direction (the keys a node's neighbour
        dictionary is built with). */
    predicate IsDirection() { Up? || Right? || Down? || Left? }
  }

  /** The keys of every node's neighbour dictionary. */
  const Directions: set<Action> := {Up, Right, Down, Left}

  /** The direction that leads back: Up and Down, Right and Left. */
  function Opposite(d: Action): (r: Action)
    requires d.IsDirection()
    ensures r.IsDirection() && r != d
  {
    match d
    case Up => Down
    case Down => Up
    case Right => Left
    case Left => Right
  }
}
