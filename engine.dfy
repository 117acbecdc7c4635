/** The tick engine as the game runs it: a mutable game state that the engine
    copies and then updates step by step. The ensures of each state-changing
    method gives the whole new state, in most cases as the value of the
    matching function of module Rules; the wall lookup changes nothing. */
module Engine {
  import opened Entities
  import Rules

  /** A game state object. Pac-Man and the ghosts are held as values that the
      methods replace, so a copy shares nothing with its original. */
  class GameState {
    var pacman: PacMan
    var ghosts: seq<Ghost>
    var walls: seq<Wall>
    var dotsEaten: int
    var fruitsEaten: int
    var lastEvent: ActionEvent

    /** The snapshot this object currently holds. */
    function Value(): World
      reads this
    {
      World(pacman, ghosts, walls, dotsEaten, fruitsEaten, lastEvent)
    }

    /** A state holding the given snapshot, as the maze loader builds it. */
    constructor (w: World)
      ensures Value() == w
    {
      pacman, ghosts, walls := w.pacman, w.ghosts, w.walls;
      dotsEaten, fruitsEaten, lastEvent := w.dotsEaten, w.fruitsEaten, w.lastEvent;
    }

    /** A deep copy: a new object equal in value to `other`. */
    constructor Copy(other: GameState)
      ensures Value() == other.Value()
    {
      pacman, ghosts, walls := other.pacman, other.ghosts, other.walls;
      dotsEaten, fruitsEaten, lastEvent := other.dotsEaten, other.fruitsEaten, other.lastEvent;
    }

    /** Whether some wall stands on the given cell, by a linear search. */
    method IsWall(position: Pos) returns (found: bool)
      ensures found <==> exists i :: 0 <= i < |walls| && walls[i].position == position
    {
      for i := 0 to |walls|
        invariant forall j :: 0 <= j < i ==> walls[j].position != position
      {
        if walls[i].position == position {
          return true;
        }
      }
      return false;
    }

    /** Stages the move on Pac-Man. */
    method SetMove(action: Move)
      modifies this
      ensures Value() == Rules.SetMove(old(Value()), action)
    {
      pacman := pacman.(move := Some(action));
    }

    /** Pac-Man's own tick: it moves and eats as `pacTick` reports, and the
      report's validity flag is returned. */
    method TickPacMan(pacTick: PacTick) returns (valid: bool)
      modifies this
      ensures var t := pacTick(old(Value()));
        valid == t.valid &&
        Value() == old(Value()).(pacman := old(pacman).(position := t.position),
                                 dotsEaten := t.dotsEaten, fruitsEaten := t.fruitsEaten)
    {
      var t := pacTick(Value());
      pacman := pacman.(position := t.position);
      dotsEaten, fruitsEaten := t.dotsEaten, t.fruitsEaten;
      valid := t.valid;
    }

    /** Every ghost and Pac-Man back at their spawn points, one life fewer. */
    method Reset()
      modifies this
      ensures Value() == Rules.Reset(old(Value()))
      ensures |ghosts| == |old(ghosts)|
    {
      var i := 0;
      while i < |ghosts|
        invariant 0 <= i <= |ghosts| == |old(ghosts)|
        invariant forall j :: 0 <= j < |ghosts| ==>
          ghosts[j] == if j < i then Rules.RespawnGhost(old(ghosts)[j]) else old(ghosts)[j]
        invariant Value() == old(Value()).(ghosts := ghosts)
      {
        ghosts := ghosts[i := Rules.RespawnGhost(ghosts[i])];
        i := i + 1;
      }
      assert ghosts == Rules.RespawnAll(old(ghosts));
      pacman := Rules.LoseLife(pacman, 1);
      pacman := Rules.RespawnPacMan(pacman);
    }

    /** Resets the game once if some ghost stands on the given cell, stopping
        at the first such ghost. */
    method IsEatenByGhost(position: Pos)
      modifies this
      ensures Value() == Rules.EatenByGhost(old(Value()), position)
    {
      var i := 0;
      while i < |ghosts|
        invariant 0 <= i <= |ghosts|
        invariant Value() == old(Value())
        invariant forall j :: 0 <= j < i ==> ghosts[j].position != position
      {
        if ghosts[i].position == position {
          Reset();
          return;
        }
        i := i + 1;
      }
    }

    /** Every ghost takes its tick, in list order. */
    method TickGhosts(ghostTick: GhostTick)
      modifies this
      ensures Value() == Rules.TickGhostsFrom(old(Value()), ghostTick, 0)
    {
      for i := 0 to |ghosts|
        invariant |ghosts| == |old(ghosts)|
        invariant Rules.TickGhostsFrom(Value(), ghostTick, i) == Rules.TickGhostsFrom(old(Value()), ghostTick, 0)
      {
        ghost var before := Value();
        ghosts := ghosts[i := ghosts[i].(position := ghostTick(Value(), i))];
        assert Value() == before.(ghosts := before.ghosts[i := before.ghosts[i].(position := ghostTick(before, i))]);
      }
    }

    /** Resolves every ghost on Pac-Man's cell, in list order, comparing each
        ghost as earlier respawns and resets left it. */
    method CheckGhostCollisions()
      modifies this
      ensures Value() == Rules.GhostCollisions(old(Value()))
    {
      var i := 0;
      while i < |ghosts|
        invariant 0 <= i <= |ghosts| == |old(ghosts)|
        invariant Value() == Rules.CollideFirst(old(Value()), i)
      {
        ghost var before := Value();
        if ghosts[i].position == pacman.position {
          if ghosts[i].frightened {
            ghosts := ghosts[i := Rules.RespawnGhost(ghosts[i])];
            lastEvent := CAPTURED_FRIGHTENED_GHOST;
          } else {
            Reset();
            lastEvent := CAPTURED_BY_GHOST;
          }
        }
        assert Value() == Rules.CollideOne(before, i);
        i := i + 1;
      }
    }
  }

  /** Records in `next` whether Pac-Man ate a dot or else a fruit since
      `current`; fails on a counter jump. */
  method CheckIfPacmanAteFood(current: GameState, next: GameState) returns (o: Outcome)
    modifies next
    ensures var r := Rules.AteFood(old(current.Value()), old(next.Value()));
      (o.Fail? <==> r.Err?) &&
      (o.Fail? ==> o.error == r.error && next.Value() == old(next.Value())) &&
      (o.Pass? ==> next.Value() == r.value)
  {
    var dot := Rules.HasEatenDot(current.Value(), next.Value());
    if dot.Err? {
      return Fail(dot.error);
    }
    if dot.value {
      next.lastEvent := DOT;
      return Pass;
    }
    var fruit := Rules.HasEatenFruit(current.Value(), next.Value());
    if fruit.Err? {
      return Fail(fruit.error);
    }
    if fruit.value {
      next.lastEvent := FRUIT;
    }
    return Pass;
  }

  /** One tick from `current` for the given action, on a fresh copy: the new
      state and its event, or the error of a counter jump. `current` is never
      changed. */
  method GetNextGameStateFromAction(current: GameState, action: Move, pacTick: PacTick, ghostTick: GhostTick)
    returns (r: Result<(GameState, ActionEvent)>)
    ensures current.Value() == old(current.Value())
    ensures var s := Rules.Step(current.Value(), action, pacTick, ghostTick);
      (r.Err? <==> s.Err?) &&
      (r.Err? ==> r.error == s.error) &&
      (r.Ok? ==> fresh(r.value.0) && (r.value.0.Value(), r.value.1) == s.value)
  {
    var next := new GameState.Copy(current);
    next.SetMove(action);
    var valid := next.TickPacMan(pacTick);
    if !valid {
      next.lastEvent := WALL;
    }
    assert next.Value() == Rules.AfterPacMan(current.Value(), action, pacTick);
    var food := CheckIfPacmanAteFood(current, next);
    if food.Fail? {
      return Err(food.error);
    }
    ghost var fed := next.Value();
    next.TickGhosts(ghostTick);
    next.CheckGhostCollisions();
    assert next.Value() == Rules.GhostPhase(fed, ghostTick);
    return Ok((next, next.lastEvent));
  }

  /** The tick for each of the four moves, each from the same unchanged
      `current` and each on its own fresh copy. */
  method GetNextGameStateByMove(current: GameState, pacTick: PacTick, ghostTick: GhostTick)
    returns (r: Result<map<Move, (GameState, ActionEvent)>>)
    ensures current.Value() == old(current.Value())
    ensures r.Err? <==> exists m: Move :: Rules.Step(current.Value(), m, pacTick, ghostTick).Err?
    ensures r.Err? ==> r.error == CounterJump
    ensures r.Ok? ==> r.value.Keys == {Up, Left, Down, Right}
    ensures r.Ok? ==> forall m :: m in r.value ==>
      fresh(r.value[m].0) &&
      (r.value[m].0.Value(), r.value[m].1) == Rules.Step(current.Value(), m, pacTick, ghostTick).value
    ensures r.Ok? ==> forall m, n :: m in r.value && n in r.value && m != n ==> r.value[m].0 != r.value[n].0
    ensures r.Ok? <==> Rules.Successors(current.Value(), pacTick, ghostTick).Ok?
    ensures r.Ok? ==> forall m :: m in r.value ==>
      (r.value[m].0.Value(), r.value[m].1) == Rules.Successors(current.Value(), pacTick, ghostTick).value[m]
  {
    ghost var w := current.Value();
    var successors: map<Move, (GameState, ActionEvent)> := map[];
    for k := 0 to |MoveOrder|
      invariant current.Value() == w
      invariant forall m :: m in successors <==> m in MoveOrder[..k]
      invariant forall m :: m in successors ==>
        fresh(successors[m].0) && Rules.Step(w, m, pacTick, ghostTick).Ok? &&
        (successors[m].0.Value(), successors[m].1) == Rules.Step(w, m, pacTick, ghostTick).value
      invariant forall m, n :: m in successors && n in successors && m != n ==>
        successors[m].0 != successors[n].0
    {
      var next := GetNextGameStateFromAction(current, MoveOrder[k], pacTick, ghostTick);
      if next.Err? {
        return Err(next.error);
      }
      successors := successors[MoveOrder[k] := next.value];
    }
    forall m: Move ensures m in successors && Rules.Step(w, m, pacTick, ghostTick).Ok? {
      Rules.MoveOrderComplete(m);
    }
    Rules.EveryMoveKeys(successors);
    return Ok(successors);
  }
}
