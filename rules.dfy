/** The game logic on snapshot values: each operation of the tick engine as a
    function from the old snapshot to the new one, and what is proved of them.
    The class in module Engine performs the same operations in place and is
    proved to agree with these functions. */
module Rules {
  import opened Entities

  // ---------------------------------------------------------------------------
  // Positions

  /** A position moved by a coordinate delta. */
  function AddMoveToPosition(position: Pos, move: Pos): (r: Pos)
    ensures r.x - position.x == move.x && r.y - position.y == move.y
  {
    Pos(position.x + move.x, position.y + move.y)
  }

  // ---------------------------------------------------------------------------
  // Respawning and losing a life

  function RespawnGhost(g: Ghost): Ghost
  {
    g.(position := g.spawn)
  }

  function RespawnPacMan(p: PacMan): PacMan
  {
    p.(position := p.spawn)
  }

  function LoseLife(p: PacMan, n: int): PacMan
  {
    p.(lives := p.lives - n)
  }

  /** Every ghost respawned, in place in the list. */
  function RespawnAll(ghosts: seq<Ghost>): seq<Ghost>
  {
    seq(|ghosts|, i requires 0 <= i < |ghosts| => RespawnGhost(ghosts[i]))
  }

  /** The penalty for being caught: every ghost and Pac-Man back at their spawn
      points, and one life fewer. */
  function Reset(w: World): (r: World)
    ensures |r.ghosts| == |w.ghosts|
    ensures forall i :: 0 <= i < |r.ghosts| ==>
      r.ghosts[i].position == r.ghosts[i].spawn == w.ghosts[i].spawn &&
      r.ghosts[i].frightened == w.ghosts[i].frightened
    ensures r.pacman.position == r.pacman.spawn == w.pacman.spawn
    ensures r.pacman.lives == w.pacman.lives - 1 && r.pacman.move == w.pacman.move
    ensures r.walls == w.walls && r.lastEvent == w.lastEvent
    ensures r.dotsEaten == w.dotsEaten && r.fruitsEaten == w.fruitsEaten
  {
    w.(ghosts := RespawnAll(w.ghosts), pacman := RespawnPacMan(LoseLife(w.pacman, 1)))
  }

  /** Some ghost stands on the given cell. */
  predicate GhostAt(w: World, position: Pos)
  {
    exists i :: 0 <= i < |w.ghosts| && w.ghosts[i].position == position
  }

  /** Being eaten at a cell: one reset when any ghost stands there, however
      many ghosts share it; nothing otherwise. */
  function EatenByGhost(w: World, position: Pos): (r: World)
    ensures r.pacman.lives == w.pacman.lives - (if GhostAt(w, position) then 1 else 0)
    ensures GhostAt(w, position) ==> r.pacman.position == w.pacman.spawn && r == Reset(w)
    ensures !GhostAt(w, position) ==> r == w
  {
    if GhostAt(w, position) then Reset(w) else w
  }

  // ---------------------------------------------------------------------------
  // Food

  /** Classifies the change of one eaten-counter: one more item eaten, none,
      or a jump that the game treats as a broken state. */
  function CounterIncreased(before: int, after: int): (r: Result<bool>)
    ensures r.Ok? <==> after - before == 0 || after - before == 1
    ensures r == Ok(true) <==> after == before + 1
    ensures r.Err? ==> r.error == CounterJump
  {
    var diff := after - before;
    if diff == 1 then Ok(true)
    else if diff != 1 && diff != 0 then Err(CounterJump)
    else Ok(false)
  }

  /** Whether exactly one dot was eaten between the two snapshots. */
  function HasEatenDot(current: World, next: World): (r: Result<bool>)
    ensures r.Ok? <==> next.dotsEaten - current.dotsEaten in {0, 1}
    ensures r == Ok(true) <==> next.dotsEaten - current.dotsEaten == 1
    ensures r == Ok(false) <==> next.dotsEaten == current.dotsEaten
    ensures r.Err? ==> r.error == CounterJump
  {
    CounterIncreased(current.dotsEaten, next.dotsEaten)
  }

  /** Whether exactly one fruit was eaten between the two snapshots. */
  function HasEatenFruit(current: World, next: World): (r: Result<bool>)
    ensures r.Ok? <==> next.fruitsEaten - current.fruitsEaten in {0, 1}
    ensures r == Ok(true) <==> next.fruitsEaten - current.fruitsEaten == 1
    ensures r == Ok(false) <==> next.fruitsEaten == current.fruitsEaten
    ensures r.Err? ==> r.error == CounterJump
  {
    CounterIncreased(current.fruitsEaten, next.fruitsEaten)
  }

  /** Records in `next` what Pac-Man ate since `current`: a dot takes precedence
      over a fruit, and the fruit counter is not even checked after a dot. */
  function AteFood(current: World, next: World): (r: Result<World>)
    ensures r.Err? <==>
      !(next.dotsEaten - current.dotsEaten in {0, 1}) ||
      (next.dotsEaten == current.dotsEaten && !(next.fruitsEaten - current.fruitsEaten in {0, 1}))
    ensures r.Err? ==> r.error == CounterJump
    ensures next.dotsEaten - current.dotsEaten == 1 ==> r == Ok(next.(lastEvent := DOT))
    ensures next.dotsEaten == current.dotsEaten && next.fruitsEaten - current.fruitsEaten == 1 ==>
      r == Ok(next.(lastEvent := FRUIT))
    ensures next.dotsEaten == current.dotsEaten && next.fruitsEaten == current.fruitsEaten ==>
      r == Ok(next)
  {
    match HasEatenDot(current, next)
    case Err(e) => Err(e)
    case Ok(true) => Ok(next.(lastEvent := DOT))
    case Ok(false) =>
      match HasEatenFruit(current, next)
      case Err(e) => Err(e)
      case Ok(true) => Ok(next.(lastEvent := FRUIT))
      case Ok(false) => Ok(next)
  }

  // ---------------------------------------------------------------------------
  // Ghost collisions

  /** The ghost at index i stands on Pac-Man's cell. */
  predicate CollidesAt(w: World, i: nat)
    requires i < |w.ghosts|
  {
    w.ghosts[i].position == w.pacman.position
  }

  /** No ghost stands on Pac-Man's cell. */
  predicate NoGhostOnPacMan(w: World)
  {
    forall j :: 0 <= j < |w.ghosts| ==> w.ghosts[j].position != w.pacman.position
  }

  /** One pass of the collision loop, for the ghost at index i: a frightened
      ghost on Pac-Man's cell is sent home; any other ghost there resets the game. */
  function CollideOne(w: World, i: nat): (r: World)
    requires i < |w.ghosts|
    ensures |r.ghosts| == |w.ghosts|
  {
    if !CollidesAt(w, i) then w
    else if w.ghosts[i].frightened then
      w.(ghosts := w.ghosts[i := RespawnGhost(w.ghosts[i])], lastEvent := CAPTURED_FRIGHTENED_GHOST)
    else
      Reset(w).(lastEvent := CAPTURED_BY_GHOST)
  }

  /** The state after the collision loop has handled the first n ghosts; each
      ghost is compared against the state that the ghosts before it left. */
  function CollideFirst(w: World, n: nat): (r: World)
    requires n <= |w.ghosts|
    ensures |r.ghosts| == |w.ghosts| && r.pacman.spawn == w.pacman.spawn
    ensures r.walls == w.walls && r.dotsEaten == w.dotsEaten && r.fruitsEaten == w.fruitsEaten
  {
    if n == 0 then w else CollideOne(CollideFirst(w, n - 1), n - 1)
  }

  /** Resolves every ghost on Pac-Man's cell, in list order. */
  function GhostCollisions(w: World): (r: World)
    ensures |r.ghosts| == |w.ghosts| && r.pacman.spawn == w.pacman.spawn
    ensures r.walls == w.walls && r.dotsEaten == w.dotsEaten && r.fruitsEaten == w.fruitsEaten
    ensures r.lastEvent == w.lastEvent || r.lastEvent in {CAPTURED_BY_GHOST, CAPTURED_FRIGHTENED_GHOST}
  {
    LastCollisionWins(w, |w.ghosts|);
    CollideFirst(w, |w.ghosts|)
  }

  /** The event the collision loop assigns for the ghost at index i, if any. */
  function EventAt(w: World, i: nat): (es: seq<ActionEvent>)
    requires i < |w.ghosts|
    ensures |es| == if CollidesAt(w, i) then 1 else 0
  {
    if !CollidesAt(w, i) then []
    else if w.ghosts[i].frightened then [CAPTURED_FRIGHTENED_GHOST]
    else [CAPTURED_BY_GHOST]
  }

  /** The events the collision loop assigns for the first n ghosts, in order. */
  function EventsFirst(w: World, n: nat): (es: seq<ActionEvent>)
    requires n <= |w.ghosts|
    ensures |es| <= n
    ensures forall k :: 0 <= k < |es| ==> es[k] in {CAPTURED_BY_GHOST, CAPTURED_FRIGHTENED_GHOST}
  {
    if n == 0 then [] else EventsFirst(w, n - 1) + EventAt(CollideFirst(w, n - 1), n - 1)
  }

  /** The event left behind is the last one the loop assigned, or the incoming
      one when no ghost collided. */
  lemma {:induction false} LastCollisionWins(w: World, n: nat)
    requires n <= |w.ghosts|
    ensures var es := EventsFirst(w, n);
      CollideFirst(w, n).lastEvent == if |es| == 0 then w.lastEvent else es[|es| - 1]
  {
    if n > 0 {
      LastCollisionWins(w, n - 1);
      var here := EventAt(CollideFirst(w, n - 1), n - 1);
      if |here| == 0 {
        assert EventsFirst(w, n) == EventsFirst(w, n - 1) + here;
      }
    }
  }

  /** Pac-Man loses exactly one life per collision with a ghost that is not
      frightened, counting collisions caused by earlier resets. */
  lemma {:induction false} LivesLostPerLethalCollision(w: World, n: nat)
    requires n <= |w.ghosts|
    ensures CollideFirst(w, n).pacman.lives ==
      w.pacman.lives - multiset(EventsFirst(w, n))[CAPTURED_BY_GHOST]
  {
    if n == 0 {
      assert EventsFirst(w, 0) == [];
    } else {
      LivesLostPerLethalCollision(w, n - 1);
      LivesStep(w, n);
      LethalCountStep(w, n);
    }
  }

  /** The pass for ghost n - 1 costs a life exactly when it records
      CAPTURED_BY_GHOST. */
  lemma LivesStep(w: World, n: nat)
    requires 0 < n <= |w.ghosts|
    ensures CollideFirst(w, n).pacman.lives == CollideFirst(w, n - 1).pacman.lives -
      multiset(EventAt(CollideFirst(w, n - 1), n - 1))[CAPTURED_BY_GHOST]
  {
  }

  /** The count of CAPTURED_BY_GHOST events grows by the count of the pass for
      ghost n - 1. */
  lemma LethalCountStep(w: World, n: nat)
    requires 0 < n <= |w.ghosts|
    ensures multiset(EventsFirst(w, n))[CAPTURED_BY_GHOST] ==
      multiset(EventsFirst(w, n - 1))[CAPTURED_BY_GHOST] +
      multiset(EventAt(CollideFirst(w, n - 1), n - 1))[CAPTURED_BY_GHOST]
  {
  }

  /** Ghosts from index i to n that are off Pac-Man's cell in the state the loop
      reached at i change nothing and record nothing. */
  lemma {:induction false} QuietFrom(w: World, i: nat, n: nat)
    requires i <= n <= |w.ghosts|
    requires forall j :: i <= j < n ==> !CollidesAt(CollideFirst(w, i), j)
    ensures CollideFirst(w, n) == CollideFirst(w, i)
    ensures EventsFirst(w, n) == EventsFirst(w, i)
    decreases n - i
  {
    if i < n {
      QuietFrom(w, i, n - 1);
      assert EventsFirst(w, n) == EventsFirst(w, n - 1) + [];
    }
  }

  /** When the loop has recorded no event, the state is the incoming one. */
  lemma {:induction false} NoEventsNoChange(w: World, n: nat)
    requires n <= |w.ghosts| && |EventsFirst(w, n)| == 0
    ensures CollideFirst(w, n) == w
  {
    if n > 0 {
      var s := CollideFirst(w, n - 1);
      assert |EventsFirst(w, n - 1)| == 0 && |EventAt(s, n - 1)| == 0 by {
        assert EventsFirst(w, n) == EventsFirst(w, n - 1) + EventAt(s, n - 1);
      }
      NoEventsNoChange(w, n - 1);
    }
  }

  /** With no ghost on Pac-Man's cell, neither the state nor the event changes. */
  lemma NoCollisionUnchanged(w: World)
    requires NoGhostOnPacMan(w)
    ensures GhostCollisions(w) == w
    ensures |EventsFirst(w, |w.ghosts|)| == 0
  {
    assert CollideFirst(w, 0) == w;
    QuietFrom(w, 0, |w.ghosts|);
  }

  /** A ghost on Pac-Man's cell in the incoming state, among the first n, makes
      the loop record at least one event. */
  lemma {:induction false} CollisionProducesEvent(w: World, n: nat, j: nat)
    requires j < n <= |w.ghosts| && CollidesAt(w, j)
    ensures |EventsFirst(w, n)| > 0
  {
    var s := CollideFirst(w, n - 1);
    if j < n - 1 {
      CollisionProducesEvent(w, n - 1, j);
      assert |EventsFirst(w, n)| >= |EventsFirst(w, n - 1)|;
    } else if |EventsFirst(w, n - 1)| > 0 {
      assert |EventsFirst(w, n)| >= |EventsFirst(w, n - 1)|;
    } else {
      NoEventsNoChange(w, n - 1);
      assert |EventAt(s, n - 1)| > 0;
    }
  }

  /** Any ghost on Pac-Man's cell makes the final event a capture. */
  lemma CollisionSetsCaptureEvent(w: World, j: nat)
    requires j < |w.ghosts| && CollidesAt(w, j)
    ensures GhostCollisions(w).lastEvent in {CAPTURED_BY_GHOST, CAPTURED_FRIGHTENED_GHOST}
  {
    CollisionProducesEvent(w, |w.ghosts|, j);
    LastCollisionWins(w, |w.ghosts|);
  }

  /** The outcome of the loop when the ghost at index i is the first on
      Pac-Man's cell and no later ghost is on Pac-Man's cell afterwards: the
      state that ghost's pass leaves. */
  lemma SingleCapture(w: World, i: nat, after: World)
    requires i < |w.ghosts| && CollideOne(w, i) == after
    requires forall j :: 0 <= j < i ==> !CollidesAt(w, j)
    requires forall j :: i < j < |w.ghosts| ==> !CollidesAt(after, j)
    ensures GhostCollisions(w) == after
  {
    assert CollideFirst(w, 0) == w;
    QuietFrom(w, 0, i);
    assert CollideFirst(w, i + 1) == after;
    QuietFrom(w, i + 1, |w.ghosts|);
  }

  /** A lone frightened ghost on Pac-Man's cell is sent home; Pac-Man, its lives
      and every other ghost are untouched. */
  lemma FrightenedCapture(w: World, i: nat)
    requires i < |w.ghosts| && CollidesAt(w, i) && w.ghosts[i].frightened
    requires forall j :: 0 <= j < |w.ghosts| && j != i ==> !CollidesAt(w, j)
    ensures GhostCollisions(w) ==
      w.(ghosts := w.ghosts[i := RespawnGhost(w.ghosts[i])], lastEvent := CAPTURED_FRIGHTENED_GHOST)
  {
    var after := w.(ghosts := w.ghosts[i := RespawnGhost(w.ghosts[i])], lastEvent := CAPTURED_FRIGHTENED_GHOST);
    forall j | i < j < |w.ghosts| ensures !CollidesAt(after, j) {
      assert after.ghosts[j] == w.ghosts[j] && !CollidesAt(w, j);
    }
    SingleCapture(w, i, after);
  }

  /** The first ghost on Pac-Man's cell being hostile resets the game: when no
      ghost respawns on Pac-Man's spawn point, the outcome is one reset, with
      the event CAPTURED_BY_GHOST, whatever the ghosts after it are. */
  lemma LethalCapture(w: World, i: nat)
    requires i < |w.ghosts| && CollidesAt(w, i) && !w.ghosts[i].frightened
    requires forall j :: 0 <= j < i ==> !CollidesAt(w, j)
    requires forall j :: 0 <= j < |w.ghosts| ==> w.ghosts[j].spawn != w.pacman.spawn
    ensures GhostCollisions(w) == Reset(w).(lastEvent := CAPTURED_BY_GHOST)
    ensures GhostCollisions(w).pacman.lives == w.pacman.lives - 1
  {
    var after := Reset(w).(lastEvent := CAPTURED_BY_GHOST);
    forall j | i < j < |w.ghosts| ensures !CollidesAt(after, j) {
      assert after.ghosts[j].position == w.ghosts[j].spawn;
    }
    SingleCapture(w, i, after);
  }

  /** Two hostile ghosts on Pac-Man's cell whose spawn points are Pac-Man's own
      cost two lives: the second is compared after the first one's reset. */
  lemma RepeatedReset(w: World)
    requires |w.ghosts| == 2
    requires forall j :: 0 <= j < 2 ==>
      CollidesAt(w, j) && !w.ghosts[j].frightened && w.ghosts[j].spawn == w.pacman.spawn
    ensures GhostCollisions(w).pacman.lives == w.pacman.lives - 2
    ensures GhostCollisions(w).lastEvent == CAPTURED_BY_GHOST
  {
    var w1 := CollideOne(w, 0);
    assert CollideFirst(w, 1) == w1;
    assert CollidesAt(w1, 1);
    assert GhostCollisions(w) == CollideOne(w1, 1);
  }

  /** The last collision overwrites the event: a hostile ghost followed by a
      frightened one that respawns on Pac-Man's spawn point ends with
      CAPTURED_FRIGHTENED_GHOST although Pac-Man lost a life. This rests on
      respawning keeping the frightened flag, as `RespawnGhost` does. */
  lemma LastCollisionOverwrites(w: World)
    requires |w.ghosts| == 2 && CollidesAt(w, 0) && !w.ghosts[0].frightened
    requires w.ghosts[1].frightened && w.ghosts[1].spawn == w.pacman.spawn
    ensures GhostCollisions(w).lastEvent == CAPTURED_FRIGHTENED_GHOST
    ensures GhostCollisions(w).pacman.lives == w.pacman.lives - 1
  {
    var w1 := CollideOne(w, 0);
    assert CollideFirst(w, 1) == w1;
    assert CollidesAt(w1, 1);
    assert GhostCollisions(w) == CollideOne(w1, 1);
  }

  // ---------------------------------------------------------------------------
  // Ghost movement

  /** Every ghost from index i on takes its tick, in list order; each sees the
      state with the ghosts before it already moved. */
  function TickGhostsFrom(w: World, tick: GhostTick, i: nat): (r: World)
    requires i <= |w.ghosts|
    ensures |r.ghosts| == |w.ghosts| && r == w.(ghosts := r.ghosts)
    ensures forall j :: 0 <= j < |w.ghosts| ==>
      r.ghosts[j].frightened == w.ghosts[j].frightened && r.ghosts[j].spawn == w.ghosts[j].spawn
    decreases |w.ghosts| - i
  {
    if i == |w.ghosts| then w
    else
      var moved := w.ghosts[i].(position := tick(w, i));
      TickGhostsFrom(w.(ghosts := w.ghosts[i := moved]), tick, i + 1)
  }

  /** The ghosts tick one after another in list order: ghost j moves to its
      tick of the snapshot in which the ghosts before j have moved and the
      ghosts from j on have not; the ghosts before i are left alone. */
  lemma {:induction false} TickGhostsInOrder(w: World, tick: GhostTick, i: nat)
    requires i <= |w.ghosts|
    ensures var r := TickGhostsFrom(w, tick, i);
      (forall j :: 0 <= j < i ==> r.ghosts[j] == w.ghosts[j]) &&
      forall j :: i <= j < |w.ghosts| ==>
        r.ghosts[j] == w.ghosts[j].(position := tick(w.(ghosts := r.ghosts[..j] + w.ghosts[j..]), j))
    decreases |w.ghosts| - i
  {
    if i < |w.ghosts| {
      var moved := w.ghosts[i].(position := tick(w, i));
      var next := w.(ghosts := w.ghosts[i := moved]);
      TickGhostsInOrder(next, tick, i + 1);
      var r := TickGhostsFrom(next, tick, i + 1);
      assert r.ghosts[..i] + w.ghosts[i..] == w.ghosts;
      forall j | i < j < |w.ghosts|
        ensures w.(ghosts := r.ghosts[..j] + w.ghosts[j..]) == next.(ghosts := r.ghosts[..j] + next.ghosts[j..])
      {
        assert w.ghosts[j..] == next.ghosts[j..];
      }
    }
  }

  // ---------------------------------------------------------------------------
  // The tick

  /** Stages the move on Pac-Man. */
  function SetMove(w: World, action: Move): (r: World)
    ensures r.pacman.move == Some(action)
    ensures r == w.(pacman := r.pacman) && r.pacman == w.pacman.(move := r.pacman.move)
  {
    w.(pacman := w.pacman.(move := Some(action)))
  }

  /** The snapshot after Pac-Man's own tick, with WALL recorded for an invalid move. */
  function AfterPacMan(current: World, action: Move, pacTick: PacTick): (r: World)
    ensures var t := pacTick(SetMove(current, action));
      r.pacman.position == t.position && r.dotsEaten == t.dotsEaten && r.fruitsEaten == t.fruitsEaten &&
      r.lastEvent == (if t.valid then current.lastEvent else WALL)
    ensures r.pacman == current.pacman.(position := pacTick(SetMove(current, action)).position,
                                        move := Some(action))
    ensures r.ghosts == current.ghosts && r.walls == current.walls
  {
    var staged := SetMove(current, action);
    var t := pacTick(staged);
    var moved := staged.(pacman := staged.pacman.(position := t.position),
                         dotsEaten := t.dotsEaten, fruitsEaten := t.fruitsEaten);
    if t.valid then moved else moved.(lastEvent := WALL)
  }

  /** The ghosts' part of a tick: every ghost moves, then collisions are resolved. */
  function GhostPhase(fed: World, ghostTick: GhostTick): (r: World)
    ensures |r.ghosts| == |fed.ghosts| && r.pacman.spawn == fed.pacman.spawn
    ensures r.walls == fed.walls && r.dotsEaten == fed.dotsEaten && r.fruitsEaten == fed.fruitsEaten
    ensures r.lastEvent == fed.lastEvent || r.lastEvent in {CAPTURED_BY_GHOST, CAPTURED_FRIGHTENED_GHOST}
  {
    GhostCollisions(TickGhostsFrom(fed, ghostTick, 0))
  }

  /** One tick of the game from `current` for the given action: the next
      snapshot and its event, or the error a counter jump raises. */
  function Step(current: World, action: Move, pacTick: PacTick, ghostTick: GhostTick)
    : (r: Result<(World, ActionEvent)>)
    ensures r.Err? ==> r.error == CounterJump
    ensures r.Ok? ==> r.value.1 == r.value.0.lastEvent
    ensures r.Ok? ==> r.value.0.walls == current.walls && |r.value.0.ghosts| == |current.ghosts|
    ensures r.Ok? ==> r.value.0.dotsEaten - current.dotsEaten in {0, 1}
    ensures r.Ok? && r.value.0.dotsEaten == current.dotsEaten ==>
      r.value.0.fruitsEaten - current.fruitsEaten in {0, 1}
    ensures r.Ok? ==> r.value.0.pacman.spawn == current.pacman.spawn
  {
    match AteFood(current, AfterPacMan(current, action, pacTick))
    case Err(e) => Err(e)
    case Ok(fed) =>
      var next := GhostPhase(fed, ghostTick);
      Ok((next, next.lastEvent))
  }

  /** A tick fails exactly when the dot counter jumps, or when it stays and the
      fruit counter jumps; the fruit counter is not checked after a dot. */
  lemma StepFailsIff(current: World, action: Move, pacTick: PacTick, ghostTick: GhostTick)
    ensures var t := pacTick(SetMove(current, action));
      var dots := t.dotsEaten - current.dotsEaten;
      var fruits := t.fruitsEaten - current.fruitsEaten;
      Step(current, action, pacTick, ghostTick).Err? <==>
        !(dots in {0, 1}) || (dots == 0 && !(fruits in {0, 1}))
  {
  }

  /** The event of a tick in which no ghost ends on Pac-Man's cell: DOT over
      FRUIT over WALL, and otherwise the incoming snapshot's event carried over. */
  lemma StepEventWithoutCollision(current: World, action: Move, pacTick: PacTick, ghostTick: GhostTick)
    requires AteFood(current, AfterPacMan(current, action, pacTick)).Ok?
    requires NoGhostOnPacMan(TickGhostsFrom(AteFood(current, AfterPacMan(current, action, pacTick)).value, ghostTick, 0))
    ensures var t := pacTick(SetMove(current, action));
      Step(current, action, pacTick, ghostTick).Ok? &&
      Step(current, action, pacTick, ghostTick).value.1 ==
        if t.dotsEaten - current.dotsEaten == 1 then DOT
        else if t.fruitsEaten - current.fruitsEaten == 1 then FRUIT
        else if !t.valid then WALL
        else current.lastEvent
  {
    var fed := AteFood(current, AfterPacMan(current, action, pacTick)).value;
    NoCollisionUnchanged(TickGhostsFrom(fed, ghostTick, 0));
  }

  /** A ghost ending on Pac-Man's cell overrides every earlier event of the tick. */
  lemma StepEventWithCollision(current: World, action: Move, pacTick: PacTick, ghostTick: GhostTick, j: nat)
    requires AteFood(current, AfterPacMan(current, action, pacTick)).Ok?
    requires var ticked := TickGhostsFrom(AteFood(current, AfterPacMan(current, action, pacTick)).value, ghostTick, 0);
      j < |ticked.ghosts| && ticked.ghosts[j].position == ticked.pacman.position
    ensures Step(current, action, pacTick, ghostTick).Ok?
    ensures Step(current, action, pacTick, ghostTick).value.1 in {CAPTURED_BY_GHOST, CAPTURED_FRIGHTENED_GHOST}
  {
    var fed := AteFood(current, AfterPacMan(current, action, pacTick)).value;
    CollisionSetsCaptureEvent(TickGhostsFrom(fed, ghostTick, 0), j);
  }

  // ---------------------------------------------------------------------------
  // Successors

  /** The ticks for each move of `moves`, each from the same `current`, keyed
      by move; the first failing tick's error otherwise. */
  function StepsFor(current: World, moves: seq<Move>, pacTick: PacTick, ghostTick: GhostTick)
    : (r: Result<map<Move, (World, ActionEvent)>>)
    ensures r.Ok? <==> forall m :: m in moves ==> Step(current, m, pacTick, ghostTick).Ok?
    ensures r.Err? ==> r.error == CounterJump
    ensures r.Ok? ==> forall m :: m in r.value <==> m in moves
    ensures r.Ok? ==> forall m :: m in moves ==> r.value[m] == Step(current, m, pacTick, ghostTick).value
    decreases |moves|
  {
    if moves == [] then Ok(map[])
    else
      match Step(current, moves[0], pacTick, ghostTick)
      case Err(e) => Err(e)
      case Ok(first) =>
        match StepsFor(current, moves[1..], pacTick, ghostTick)
        case Err(e) => Err(e)
        case Ok(rest) => Ok(rest[moves[0] := first])
  }

  /** Every move appears in the enumeration order. */
  lemma MoveOrderComplete(m: Move)
    ensures m in MoveOrder
  {
    match m
    case Up => assert MoveOrder[0] == Up;
    case Left => assert MoveOrder[1] == Left;
    case Down => assert MoveOrder[2] == Down;
    case Right => assert MoveOrder[3] == Right;
  }

  /** The outcome of every move from the same snapshot, keyed by move; each
      entry is a tick of that same snapshot, not of another entry's result. */
  function Successors(current: World, pacTick: PacTick, ghostTick: GhostTick)
    : (r: Result<map<Move, (World, ActionEvent)>>)
    ensures r.Ok? <==> forall m: Move :: Step(current, m, pacTick, ghostTick).Ok?
    ensures r.Err? ==> r.error == CounterJump
    ensures r.Ok? ==> forall m: Move :: m in r.value && r.value[m] == Step(current, m, pacTick, ghostTick).value
  {
    var r := StepsFor(current, MoveOrder, pacTick, ghostTick);
    assert forall m: Move :: m in MoveOrder by {
      forall m: Move ensures m in MoveOrder { MoveOrderComplete(m); }
    }
    r
  }

  /** The successor map has exactly the four moves as keys. */
  lemma SuccessorsKeys(current: World, pacTick: PacTick, ghostTick: GhostTick)
    ensures Successors(current, pacTick, ghostTick).Ok? ==>
      Successors(current, pacTick, ghostTick).value.Keys == {Up, Left, Down, Right}
  {
    var r := Successors(current, pacTick, ghostTick);
    if r.Ok? {
      EveryMoveKeys(r.value);
    }
  }

  /** A map that has every move as a key has exactly the four moves as keys. */
  lemma EveryMoveKeys<V>(successors: map<Move, V>)
    requires forall m: Move :: m in successors
    ensures successors.Keys == {Up, Left, Down, Right}
  {
    forall m | m in successors.Keys ensures m in {Up, Left, Down, Right} {
      match m
      case Up =>
      case Left =>
      case Down =>
      case Right =>
    }
  }
}
