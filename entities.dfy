/** The values a Pac-Man game state is made of: positions, moves, the per-tick
    event classification, the actors, and the results of the engine's checks. */
module Entities {

  /** A grid cell. The game also passes a move's coordinate delta as a pair,
      so `Pos` doubles as a displacement. */
  datatype Pos = Pos(x: int, y: int)

  /** The four actions a controller can ask the engine about. */
  datatype Move = Up | Left | Down | Right

  /** The order in which the engine computes the successor states; the
      resulting map itself has no order. */
  const MoveOrder: seq<Move> := [Up, Left, Down, Right]

  /** What happened in a tick; member names follow the game's own enumeration. */
  datatype ActionEvent =
    | DOT
    | CAPTURED_BY_GHOST
    | FRUIT
    | OUT_OF_LIVES
    | GHOST_FRIGHTENED
    | CAPTURED_FRIGHTENED_GHOST
    | WALL
    | NONE
  {
    /** The enumeration's integer value. */
    function Code(): (c: int)
      ensures 1 <= c <= 8
    {
      match this
      case DOT => 1
      case CAPTURED_BY_GHOST => 2
      case FRUIT => 3
      case OUT_OF_LIVES => 4
      case GHOST_FRIGHTENED => 5
      case CAPTURED_FRIGHTENED_GHOST => 6
      case WALL => 7
      case NONE => 8
    }
  }

  /** Distinct events have distinct codes. */
  lemma CodeInjective(a: ActionEvent, b: ActionEvent)
    ensures a.Code() == b.Code() ==> a == b
  {
  }

  datatype Option<T> = None | Some(value: T)

  /** Pac-Man: where it is, how many lives it has left, where it respawns,
      and the move staged for its next tick. */
  datatype PacMan = PacMan(position: Pos, lives: int, spawn: Pos, move: Option<Move>)

  /** A ghost: where it is, whether it is frightened, and where it respawns. */
  datatype Ghost = Ghost(position: Pos, frightened: bool, spawn: Pos)

  datatype Wall = Wall(position: Pos)

  /** One snapshot of the game: the contents of a game state object. */
  datatype World = World(
    pacman: PacMan,
    ghosts: seq<Ghost>,
    walls: seq<Wall>,
    dotsEaten: int,
    fruitsEaten: int,
    lastEvent: ActionEvent)

  /** The exception the food checks raise. */
  datatype Error = InvalidState(message: string)

  /** Both counter checks raise with this same message. */
  const CounterJump: Error := InvalidState("Error: dots_diff should be 0 or 1")

  datatype Result<T> = Ok(value: T) | Err(error: Error)

  datatype Outcome = Pass | Fail(error: Error)

  /** What Pac-Man's own tick reports: whether the staged move was valid,
      where Pac-Man now stands, and the eaten-counters afterwards. */
  datatype TickOutcome = TickOutcome(valid: bool, position: Pos, dotsEaten: int, fruitsEaten: int)

  /** Pac-Man's tick, which is not part of this model, as a parameter. */
  type PacTick = World -> TickOutcome

  /** A ghost's tick, which is not part of this model, as a parameter: the new
      position of the ghost at the given index, seen from the state at the
      moment that ghost moves. */
  type GhostTick = (World, nat) -> Pos
}
