/**
 * The second Snake game, on the games page (src/pages/Games.tsx,
 * `SnakeGame`). It differs from the arcade overlay: the heading is a unit
 * vector starting upward, food respawns anywhere on the board (possibly on
 * the snake), there is no idle phase, key presses are honoured even after
 * a crash, and a restart resets only the snake, the crash flag and the
 * score. A crash reports the final score to the page.
 */
module NeonSnake {
  import opened Wrappers
  import opened Grid
  import opened Collections
  import ArcadeZone

  /** A heading as a step vector. */
  datatype Vec = Vec(dx: int, dy: int)

  datatype Neon = Neon(
    snake: seq<Cell>,  // head first
    food: Cell,
    dir: Vec,
    gameOver: bool,
    score: nat)

  /** The state the game mounts with: heading up, food at (5, 5). */
  const Initial := Neon([ArcadeZone.StartCell], Cell(5, 5), Vec(0, -1), false, 0)

  function VecOf(d: Direction): Vec {
    match d
    case Up => Vec(0, -1)
    case Down => Vec(0, 1)
    case Left => Vec(-1, 0)
    case Right => Vec(1, 0)
  }

  predicate IsUnit(v: Vec) {
    exists d :: v == VecOf(d)
  }

  function Reverse(v: Vec): Vec {
    Vec(-v.dx, -v.dy)
  }

  /** The head step: a unit heading moves to an adjacent cell, and stepping back undoes it. */
  function Add(c: Cell, v: Vec): (r: Cell)
    ensures IsUnit(v) ==> Adjacent(c, r)
    ensures Cell(r.x + Reverse(v).dx, r.y + Reverse(v).dy) == c
  {
    Cell(c.x + v.dx, c.y + v.dy)
  }

  /** Stepping by a heading's vector is the shared grid shift. */
  lemma AddIsShift(c: Cell, d: Direction)
    ensures Add(c, VecOf(d)) == Shift(c, d)
    ensures Reverse(VecOf(d)) == VecOf(Opposite(d))
  {
  }

  /** Reachable states: as in the arcade game, with a unit heading. */
  predicate Valid(s: Neon) {
    && s.snake != []
    && AllInBounds(s.snake)
    && Distinct(s.snake)
    && Connected(s.snake)
    && InBounds(s.food)
    && IsUnit(s.dir)
    && s.score == ArcadeZone.FoodReward * (|s.snake| - 1)
  }

  lemma InitialIsValid()
    ensures Valid(Initial)
  {
    assert Initial.dir == VecOf(Up);
  }

  // ---------------------------------------------------------------------
  // The tick
  // ---------------------------------------------------------------------

  /** The state after a tick and the score reported to the page on a crash. */
  datatype Outcome = Outcome(state: Neon, crashScore: Option<nat>)

  predicate Crashes(s: Neon)
    requires s.snake != []
  {
    var head := Add(s.snake[0], s.dir);
    !InBounds(head) || head in s.snake
  }

  /**
   * One interval tick. `spawn` is the unchecked random food cell, used
   * only when the food is eaten.
   */
  function Tick(s: Neon, spawn: Cell): (o: Outcome)
    requires s.snake != []
    ensures o.state.snake != [] && o.state.dir == s.dir
    // nothing moves once crashed
    ensures s.gameOver ==> o == Outcome(s, None)
    // a crash freezes the game and reports the score, once
    ensures !s.gameOver ==> (o.state.gameOver <==> Crashes(s))
    ensures o.crashScore.Some? <==> !s.gameOver && o.state.gameOver
    ensures o.state.gameOver && !s.gameOver ==>
      o.state == s.(gameOver := true) && o.crashScore == Some(s.score)
    // otherwise the head advances by the heading and the body follows
    ensures !o.state.gameOver ==> o.state.snake[0] == Add(s.snake[0], s.dir)
    ensures !o.state.gameOver && o.state.snake[0] == s.food ==>
      o.state.snake[1..] == s.snake && o.state.score == s.score + ArcadeZone.FoodReward && o.state.food == spawn
    ensures !o.state.gameOver && o.state.snake[0] != s.food ==>
      o.state.snake[1..] == s.snake[..|s.snake| - 1] && o.state.score == s.score && o.state.food == s.food
  {
    if s.gameOver then Outcome(s, None)
    else
      var head := Add(s.snake[0], s.dir);
      if Crashes(s) then Outcome(s.(gameOver := true), Some(s.score))
      else if head == s.food then
        Outcome(s.(snake := [head] + s.snake, score := s.score + ArcadeZone.FoodReward, food := spawn), None)
      else
        Outcome(s.(snake := [head] + s.snake[..|s.snake| - 1]), None)
  }

  lemma TickPreservesValid(s: Neon, spawn: Cell)
    requires Valid(s) && InBounds(spawn)
    ensures Valid(Tick(s, spawn).state)
  {
    if !s.gameOver && !Crashes(s) {
      var d :| s.dir == VecOf(d);
      AddIsShift(s.snake[0], d);
      var head := Add(s.snake[0], s.dir);
      if head == s.food {
        Advance(s.snake, head, s.snake);
      } else {
        Advance(s.snake, head, s.snake[..|s.snake| - 1]);
      }
    }
  }

  /** The respawned food is not checked against the snake and may land on it. */
  lemma FoodMayLandOnSnake()
    ensures
      var s := Neon([ArcadeZone.StartCell], Cell(10, 9), Vec(0, -1), false, 0);
      var r := Tick(s, ArcadeZone.StartCell).state;
      InBounds(ArcadeZone.StartCell) && r.food in r.snake
  {
  }

  // ---------------------------------------------------------------------
  // Keyboard
  // ---------------------------------------------------------------------

  /**
   * Each heading key is refused only when the current heading points the
   * other way along the same axis. Keys act whether or not the game has
   * crashed.
   */
  function Key(s: Neon, key: string): (r: Neon)
    ensures r == s.(dir := r.dir)
    ensures r.dir == s.dir || r.dir != Reverse(s.dir)
    ensures r.dir != s.dir ==>
      ArcadeZone.KeyDirection(key).Some? && r.dir == VecOf(ArcadeZone.KeyDirection(key).value)
  {
    if key == "w" || key == "ArrowUp" then
      if s.dir.dy != 1 then s.(dir := Vec(0, -1)) else s
    else if key == "s" || key == "ArrowDown" then
      if s.dir.dy != -1 then s.(dir := Vec(0, 1)) else s
    else if key == "a" || key == "ArrowLeft" then
      if s.dir.dx != 1 then s.(dir := Vec(-1, 0)) else s
    else if key == "d" || key == "ArrowRight" then
      if s.dir.dx != -1 then s.(dir := Vec(1, 0)) else s
    else s
  }

  /**
   * On a unit heading the page's key rule agrees with the arcade's: a
   * mapped key turns the snake exactly when it is not the reverse heading.
   */
  lemma KeyAgreesWithArcade(s: Neon, d: Direction, key: string)
    requires s.dir == VecOf(d)
    ensures ArcadeZone.KeyDirection(key).Some? && ArcadeZone.KeyDirection(key).value != Opposite(d) ==>
      Key(s, key).dir == VecOf(ArcadeZone.KeyDirection(key).value)
    ensures ArcadeZone.KeyDirection(key).None? || ArcadeZone.KeyDirection(key).value == Opposite(d) ==>
      Key(s, key) == s
  {
  }

  lemma KeyPreservesValid(s: Neon, key: string)
    requires Valid(s)
    ensures Valid(Key(s, key))
  {
    var r := Key(s, key);
    if r.dir != s.dir {
      assert r.dir == VecOf(ArcadeZone.KeyDirection(key).value);
    }
  }

  // ---------------------------------------------------------------------
  // Restart
  // ---------------------------------------------------------------------

  /** The restart button: snake, crash flag and score only. */
  function Restart(s: Neon): (r: Neon)
    ensures r.food == s.food && r.dir == s.dir
    ensures !r.gameOver && r.score == 0 && r.snake == Initial.snake
    ensures Valid(s) ==> Valid(r)
  {
    s.(snake := [ArcadeZone.StartCell], gameOver := false, score := 0)
  }

  /** A restart keeps the heading, so it may differ from the mount heading. */
  lemma RestartKeepsHeading()
    ensures
      var crashed := Neon([Cell(10, 19)], Cell(5, 5), Vec(0, 1), true, 0);
      Restart(crashed).dir == VecOf(Down) && Restart(crashed) != Initial
  {
  }

  // ---------------------------------------------------------------------
  // Runs of events
  // ---------------------------------------------------------------------

  datatype Event = TickEvent(spawn: Cell) | KeyEvent(key: string) | RestartEvent

  /** The restart button is shown only after a crash. */
  function Apply(s: Neon, e: Event): (r: Neon)
    requires s.snake != []
    ensures r.snake != []
  {
    match e
    case TickEvent(spawn) => Tick(s, spawn).state
    case KeyEvent(key) => Key(s, key)
    case RestartEvent => if s.gameOver then Restart(s) else s
  }

  function Run(s: Neon, events: seq<Event>): (r: Neon)
    requires s.snake != []
    ensures r.snake != []
    decreases |events|
  {
    if events == [] then s else Run(Apply(s, events[0]), events[1..])
  }

  /** The unchecked food draw is still on the board. */
  predicate SpawnsInBounds(events: seq<Event>) {
    forall i :: 0 <= i < |events| && events[i].TickEvent? ==> InBounds(events[i].spawn)
  }

  lemma {:induction false} RunPreservesValid(s: Neon, events: seq<Event>)
    requires Valid(s) && SpawnsInBounds(events)
    ensures Valid(Run(s, events))
    decreases |events|
  {
    if events != [] {
      match events[0] {
        case TickEvent(spawn) => TickPreservesValid(s, spawn);
        case KeyEvent(key) => KeyPreservesValid(s, key);
        case RestartEvent =>
      }
      RunPreservesValid(Apply(s, events[0]), events[1..]);
    }
  }
}
