# Pac-Man tick engine

This project models the tick transition engine of a Pac-Man clone (`pacman/gamelogic.py`) and
proves properties of it. The engine takes a game state and a move and returns the next state
together with an `ActionEvent` that classifies the tick. It works in a fixed order:

1. deep-copy the state;
2. stage the move on Pac-Man and let Pac-Man take its tick, recording `WALL` for an invalid move;
3. classify the food eaten by comparing the eaten-counters of the old state and the copy;
4. let every ghost take its tick;
5. resolve the ghosts that stand on Pac-Man's cell, in list order.

In step 5 a frightened ghost on Pac-Man's cell is sent home. Any other ghost there triggers a
reset: every ghost and Pac-Man go back to their spawn points, and Pac-Man loses a life. The file
also has the small helpers the engine and its callers use: grid-position addition, a linear wall
lookup, the counter checks, and the map of successor states over the four moves.

The model has three modules:

- `Entities` (`entities.dfy`) holds the values: positions, moves, the event enumeration, Pac-Man,
  ghosts, walls, a `World` snapshot of a game state, and the error the counter checks raise.
- `Rules` (`rules.dfy`) gives every operation as a function from the old snapshot to the new one.
  It also holds the lemmas about these functions.
- `Engine` (`engine.dfy`) is the engine as the game runs it. A `GameState` class holds the state
  in fields that its methods update in place, following the loops of the source. The `ensures`
  of each state-changing method gives the whole new snapshot, in most cases as the value of the
  matching `Rules` function. The wall lookup changes nothing. The two top-level operations
  create fresh copies and are proved never to change their input.

Pac-Man's own tick and a ghost's tick are defined outside this file. They are parameters here.
`PacTick` maps the staged snapshot to the move's validity, Pac-Man's new cell and the
eaten-counters afterwards. `GhostTick` gives a ghost's new cell. It sees the snapshot in which the
ghosts before it have already moved. Respawning puts an actor at its spawn point and changes
nothing else. Losing a life subtracts from the lives count.

Some behaviour of the code deserves a note:

- The dot check comes first. When exactly one dot was eaten, the fruit counter is never examined,
  so a fruit counter that jumped by more than one passes unnoticed in that tick. The counters are
  therefore guaranteed to move by 0 or 1 only for dots. For fruits the guarantee holds only in
  ticks where no dot was eaten (`Rules.Step`, `Rules.StepFailsIff`).
- Both counter checks raise the same message, "Error: dots_diff should be 0 or 1", the fruit check
  included.
- The collision loop compares each ghost with the state that earlier ghosts left. A reset moves
  Pac-Man to its spawn point, so a later ghost whose own spawn point is Pac-Man's collides in turn.
  Such a tick can cost more than one life (`Rules.RepeatedReset`). The event of the last collision
  wins (`Rules.LastCollisionWins`). Respawning is modelled as keeping a ghost's frightened flag. Under
  that reading, a frightened ghost met after a reset overwrites CAPTURED_BY_GHOST although a life
  was lost (`Rules.LastCollisionOverwrites`; see "Left out").
- A tick in which nothing happens returns the event of the incoming state unchanged, not `NONE`.

## Model

| member | source | states |
|---|---|---|
| `Entities.ActionEvent.Code` | pacman/gamelogic.py:6-14 | every event has its enumeration value, between 1 and 8 |
| `Entities.CodeInjective` | pacman/gamelogic.py:6-14 | distinct events have distinct enumeration values |
| `Rules.AddMoveToPosition` | pacman/gamelogic.py:18-19 | the result differs from the position by the move delta in each coordinate |
| `Engine.GameState.IsWall` | pacman/gamelogic.py:148-152 | the linear search answers true exactly when some wall stands on the cell, so false for no walls |
| `Rules.CounterIncreased` | pacman/gamelogic.py:78-84 | a counter difference of 1 gives true, of 0 false, and any other difference, negative ones included, the counter-jump error |
| `Rules.HasEatenDot` | pacman/gamelogic.py:68-84 | true iff exactly one dot more was eaten, false iff none, the counter-jump error otherwise |
| `Rules.HasEatenFruit` | pacman/gamelogic.py:87-103 | true iff exactly one fruit more was eaten, false iff none, the error with the same message otherwise |
| `Rules.AteFood` | pacman/gamelogic.py:49-65 | fails iff the dot difference is not 0 or 1, or dots are unchanged and the fruit difference is not 0 or 1; a dot sets DOT over FRUIT; no change keeps the event |
| `Engine.CheckIfPacmanAteFood` | pacman/gamelogic.py:49-65 | the in-place check fails exactly when `Rules.AteFood` does, leaves the state alone then, and otherwise leaves its result |
| `Rules.Reset` | pacman/gamelogic.py:29-33 | every ghost and Pac-Man stand on their spawn points, Pac-Man has one life fewer, and everything else is kept |
| `Engine.GameState.Reset` | pacman/gamelogic.py:29-33 | the loop over the ghosts followed by the life loss leaves the snapshot `Rules.Reset` computes |
| `Rules.EatenByGhost` | pacman/gamelogic.py:22-26 | a ghost on the cell gives exactly `Rules.Reset`'s snapshot, so one life lost however many ghosts share the cell, all actors at their spawn points and everything else kept; no ghost there changes nothing |
| `Engine.GameState.IsEatenByGhost` | pacman/gamelogic.py:22-26 | the search stops at the first ghost on the cell and leaves the snapshot `Rules.EatenByGhost` computes |
| `Rules.GhostCollisions` | pacman/gamelogic.py:36-46 | resolving the collisions keeps the ghost count, Pac-Man's spawn point, the walls and both counters, and leaves either the incoming event or a capture event |
| `Rules.CollideOne` | pacman/gamelogic.py:37-44 | one pass of the collision loop keeps the number of ghosts |
| `Rules.CollideFirst` | pacman/gamelogic.py:36-46 | the collision loop after any number of ghosts keeps the ghost count, Pac-Man's spawn point, the walls and both counters |
| `Rules.EventAt` | pacman/gamelogic.py:37-44 | a pass records one event exactly when its ghost stands on Pac-Man's cell |
| `Rules.EventsFirst` | pacman/gamelogic.py:36-46 | the loop records at most one event per ghost, each a capture event |
| `Rules.LastCollisionWins` | pacman/gamelogic.py:36-46 | the event left behind is the last capture recorded, or the incoming event when none was |
| `Rules.LivesLostPerLethalCollision` | pacman/gamelogic.py:36-46 | Pac-Man loses exactly as many lives as CAPTURED_BY_GHOST events were recorded |
| `Rules.QuietFrom` | pacman/gamelogic.py:37-38 | ghosts off Pac-Man's cell change neither the state nor the recorded events |
| `Rules.NoEventsNoChange` | pacman/gamelogic.py:36-46 | when the loop records no event the state is the incoming one |
| `Rules.NoCollisionUnchanged` | pacman/gamelogic.py:36-46 | with no ghost on Pac-Man's cell neither the state nor the event changes |
| `Rules.CollisionProducesEvent` | pacman/gamelogic.py:37-44 | a ghost on Pac-Man's cell in the incoming state makes the loop record an event |
| `Rules.CollisionSetsCaptureEvent` | pacman/gamelogic.py:36-46 | any ghost on Pac-Man's cell makes the final event a capture event |
| `Rules.SingleCapture` | pacman/gamelogic.py:36-46 | when one ghost is the only collision, before and after its pass, the outcome is the state its pass leaves |
| `Rules.FrightenedCapture` | pacman/gamelogic.py:38-41 | a lone frightened ghost on Pac-Man's cell is sent home with CAPTURED_FRIGHTENED_GHOST; lives and all else are unchanged |
| `Rules.LethalCapture` | pacman/gamelogic.py:42-44 | a hostile first collision resets the game once with CAPTURED_BY_GHOST when no ghost respawns on Pac-Man's spawn point |
| `Rules.RepeatedReset` | pacman/gamelogic.py:37-44 | two hostile ghosts on Pac-Man's cell whose spawn is Pac-Man's cost two lives: later ghosts see the reset state |
| `Rules.LastCollisionOverwrites` | pacman/gamelogic.py:37-44 | with respawning keeping the frightened flag, a frightened ghost met after a reset overwrites CAPTURED_BY_GHOST although a life was lost |
| `Engine.GameState.CheckGhostCollisions` | pacman/gamelogic.py:36-46 | the in-place loop leaves the snapshot the collision loop computes |
| `Rules.TickGhostsFrom` | pacman/gamelogic.py:125-126 | the ghost ticks keep the number of ghosts and every ghost's flag and spawn point, and change nothing but ghosts (Pac-Man, walls, counters, event) |
| `Rules.TickGhostsInOrder` | pacman/gamelogic.py:125-126 | the ghosts tick one by one in list order: ghost j gets the position its tick returns for the state in which ghosts before j have already moved and the rest have not; ghosts before the start index are untouched |
| `Engine.GameState.TickGhosts` | pacman/gamelogic.py:125-126 | the in-place loop moves every ghost in list order as `Rules.TickGhostsFrom` does |
| `Rules.SetMove` | pacman/gamelogic.py:117 | the staged move is the given one and nothing else in the snapshot changes |
| `Engine.GameState.SetMove` | pacman/gamelogic.py:117 | stages the move on Pac-Man and changes nothing else |
| `Engine.GameState.TickPacMan` | pacman/gamelogic.py:119 | Pac-Man's tick moves it and sets the counters as reported and returns the move's validity |
| `Engine.GameState.Copy` | pacman/gamelogic.py:116 | the deep copy is a new object equal in value to its original |
| `Rules.AfterPacMan` | pacman/gamelogic.py:116-121 | the action is staged as Pac-Man's move, his position and the counters are as his tick reports, his lives and spawn point are kept, WALL is recorded exactly for an invalid move, ghosts and walls are untouched |
| `Rules.GhostPhase` | pacman/gamelogic.py:125-128 | the ghost ticks followed by the collision loop keep the ghost count, Pac-Man's spawn point, the walls and both counters, and leave either the food phase's event or a capture event |
| `Rules.Step` | pacman/gamelogic.py:106-129 | a tick fails only with the counter-jump error; the returned event is the new state's; walls, ghost count and Pac-Man's spawn are kept; dots move by 0 or 1, fruits too when no dot was eaten |
| `Rules.StepFailsIff` | pacman/gamelogic.py:116-123 | a tick fails exactly when the dot counter jumps, or it stays and the fruit counter jumps |
| `Rules.StepEventWithoutCollision` | pacman/gamelogic.py:116-129 | without a collision the event is DOT, else FRUIT, else WALL, else the incoming event carried over |
| `Rules.StepEventWithCollision` | pacman/gamelogic.py:123-129 | a ghost on Pac-Man's cell after the ghosts move overrides WALL, DOT and FRUIT with a capture event |
| `Engine.GetNextGameStateFromAction` | pacman/gamelogic.py:106-129 | the input state is never changed; the result is a fresh object whose value and event are `Rules.Step`'s, or `Rules.Step`'s error |
| `Rules.StepsFor` | pacman/gamelogic.py:144-145 | the map holds exactly the given moves, each mapped to the tick of the same snapshot, or fails iff one of those ticks fails |
| `Rules.MoveOrderComplete` | pacman/gamelogic.py:145 | the enumeration UP, LEFT, DOWN, RIGHT covers every move |
| `Rules.Successors` | pacman/gamelogic.py:144-145 | fails iff some move's tick fails; otherwise every move maps to the tick of the same unchanged snapshot, not of another entry |
| `Rules.SuccessorsKeys` | pacman/gamelogic.py:144-145 | the successor map has exactly the keys UP, LEFT, DOWN and RIGHT |
| `Engine.GetNextGameStateByMove` | pacman/gamelogic.py:144-145 | the input is never changed; the map has exactly the four moves as keys, each a fresh distinct object with `Rules.Step`'s value for that move from the same input; fails iff some tick fails; succeeds exactly when `Rules.Successors` does, with the same entries |

## Left out

- Pac-Man's tick, a ghost's tick, respawning and losing a life are defined in files that are not
  part of this model. The ticks are parameters (`PacTick`, `GhostTick`). Respawning only moves an
  actor to its spawn point and leaves a ghost's frightened flag as it was. Losing a life
  subtracts from the lives count.
- Rules.LastCollisionOverwrites: depends on respawning keeping a ghost's frightened flag, which
  the model assumes because the respawn code is not part of this model. If respawning clears the
  flag, a reset can be followed only by further CAPTURED_BY_GHOST events, and this lemma does not
  describe the game.
- The successor map of `get_next_gamestate_by_move` is a Python dict that iterates in the order
  UP, LEFT, DOWN, RIGHT. `map<Move, …>` has no order, so that iteration order is not modelled.
  The engine still computes the entries in that order (`MoveOrder`).
- Whether Pac-Man's tick keeps it out of walls, and whether an invalid move can also eat a dot,
  depend on Pac-Man's tick. The model claims neither.
- `get_next_gamestate_DEBUG` only prints to the console and is not modelled.
- `qlearning/q_config.py` holds only learning hyperparameters and is not part of this model.
- `OUT_OF_LIVES` and `GHOST_FRIGHTENED` are declared but never produced by this file. No property
  says they occur.
- The game state's own class is not part of this model. `GameState` here holds exactly the fields
  the engine reads and writes. Pac-Man and the ghosts are values in those fields, not objects of
  their own, so aliasing between game states is not modelled beyond the copies being fresh.
- A move is one of four constructors rather than a string. The table from move names to
  coordinate deltas lives in Pac-Man's tick.
- Raising an exception is modelled as an `Err` result that carries the message. Unwinding through
  callers is modelled by returning that result at once.
