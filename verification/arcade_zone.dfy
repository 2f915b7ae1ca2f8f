/**
 * The Snake game of the arcade overlay (src/components/ArcadeZone.tsx):
 * an idle/playing/gameover state machine, a one-cell tick with wall and
 * self collision, growth on food, a high score kept across games, and
 * keyboard arbitration that refuses a direct reversal.
 *
 * Each tick and each key press is one atomic step over an explicit state;
 * the interval timer that drives the ticks is not modelled.
 */
module ArcadeZone {
  import opened Wrappers
  import opened Grid
  import opened Collections

  datatype Phase = Idle | Playing | GameOver

  /** Everything the overlay keeps between steps. */
  datatype Arcade = Arcade(
    phase: Phase,
    snake: seq<Cell>,      // head first
    food: Cell,
    direction: Direction,  // the committed heading, read by the next tick
    score: nat,
    highScore: nat)

  /** Score gained per food eaten. */
  const FoodReward: nat := 10

  const StartCell := Cell(10, 10)
  const StartFood := Cell(15, 10)

  /** The state the overlay mounts with. */
  const Initial := Arcade(Idle, [StartCell], StartFood, Right, 0, 0)

  function Max(a: nat, b: nat): nat {
    if a >= b then a else b
  }

  /**
   * The invariant of every reachable state: a non-empty, connected,
   * duplicate-free snake inside the board, food inside the board, a score
   * that counts exactly the food eaten, and a high score at least the
   * score of a finished game.
   */
  predicate Valid(s: Arcade) {
    && s.snake != []
    && AllInBounds(s.snake)
    && Distinct(s.snake)
    && Connected(s.snake)
    && InBounds(s.food)
    && s.score == FoodReward * (|s.snake| - 1)
    && (s.phase == GameOver ==> s.score <= s.highScore)
  }

  // ---------------------------------------------------------------------
  // Reset and start
  // ---------------------------------------------------------------------

  /** Back to the mount state; only the high score survives. */
  function Reset(s: Arcade): (r: Arcade)
    ensures r == Initial.(highScore := s.highScore)
    ensures Valid(r) && r.phase == Idle
  {
    Arcade(Idle, [StartCell], StartFood, Right, 0, s.highScore)
  }

  /** A reset followed by entering play; callable from any phase. */
  function Start(s: Arcade): (r: Arcade)
    ensures r == Initial.(phase := Playing, highScore := s.highScore)
    ensures Valid(r) && r.phase == Playing && r.highScore == s.highScore
  {
    Reset(s).(phase := Playing)
  }

  // ---------------------------------------------------------------------
  // Food
  // ---------------------------------------------------------------------

  /** A cell the rejection sampler may return for this snake. */
  predicate FoodChoice(snake: seq<Cell>, c: Cell) {
    InBounds(c) && c !in snake
  }

  /**
   * Rejection sampling: draw in-bounds cells until one is not on the
   * snake. The random draw is a nondeterministic choice; the sampler
   * loops forever on a full board, so the snake must leave a cell free.
   */
  method GenerateFood(snake: seq<Cell>) returns (food: Cell)
    requires |snake| < Area
    ensures FoodChoice(snake, food)
  {
    FreeCellExists(snake);
    food :| InBounds(food) && food !in snake;
  }

  // ---------------------------------------------------------------------
  // The tick
  // ---------------------------------------------------------------------

  function NextHead(s: Arcade): Cell
    requires s.snake != []
  {
    Shift(s.snake[0], s.direction)
  }

  /** The next head leaves the board or lands on a current segment. */
  predicate Crashes(s: Arcade)
    requires s.snake != []
  {
    !InBounds(NextHead(s)) || NextHead(s) in s.snake
  }

  /**
   * One game-loop tick. `spawn` is the cell the food sampler returns; it
   * is used only when the food is eaten.
   */
  function Tick(s: Arcade, spawn: Cell): (r: Arcade)
    requires s.snake != []
    ensures r.snake != [] && r.direction == s.direction
    // only a playing game moves
    ensures s.phase != Playing ==> r == s
    ensures s.phase == Playing ==> (r.phase == GameOver <==> Crashes(s))
    ensures s.phase == Playing && !Crashes(s) ==> r.phase == Playing
    // a crash freezes the snake, food and score and records the high score
    ensures s.phase == Playing && r.phase == GameOver ==>
      && r.snake == s.snake && r.food == s.food && r.score == s.score
      && r.highScore == Max(s.highScore, s.score)
    // a move puts the new head one step along the heading ...
    ensures r.phase == Playing ==>
      && r.highScore == s.highScore
      && r.snake[0] == Shift(s.snake[0], s.direction)
    // ... and either grows onto the food or drags the tail along
    ensures r.phase == Playing && r.snake[0] == s.food ==>
      r.snake[1..] == s.snake && r.score == s.score + FoodReward && r.food == spawn
    ensures r.phase == Playing && r.snake[0] != s.food ==>
      r.snake[1..] == s.snake[..|s.snake| - 1] && r.score == s.score && r.food == s.food
  {
    if s.phase != Playing then s
    else
      var head := NextHead(s);
      if Crashes(s) then
        s.(phase := GameOver, highScore := Max(s.highScore, s.score))
      else if head == s.food then
        s.(snake := [head] + s.snake, score := s.score + FoodReward, food := spawn)
      else
        s.(snake := [head] + s.snake[..|s.snake| - 1])
  }

  /** A tick on a valid state with an in-bounds spawn keeps the state valid. */
  lemma TickPreservesValid(s: Arcade, spawn: Cell)
    requires Valid(s) && InBounds(spawn)
    ensures Valid(Tick(s, spawn))
  {
    if s.phase == Playing && !Crashes(s) {
      var head := NextHead(s);
      if head == s.food {
        Advance(s.snake, head, s.snake);
      } else {
        Advance(s.snake, head, s.snake[..|s.snake| - 1]);
      }
    }
  }

  /**
   * The tick as the game loop runs it: the food sampler is consulted with
   * the pre-move snake only when the head reaches the food.
   */
  method GameLoop(s: Arcade) returns (r: Arcade)
    requires Valid(s)
    ensures r == Tick(s, r.food)
    ensures Valid(r)
    ensures r.food == s.food || FoodChoice(s.snake, r.food)
  {
    if s.phase == Playing && !Crashes(s) && NextHead(s) == s.food {
      RoomForOneMore(s.snake, NextHead(s));
      var spawn := GenerateFood(s.snake);
      r := Tick(s, spawn);
      TickPreservesValid(s, spawn);
    } else {
      r := Tick(s, s.food);
      TickPreservesValid(s, s.food);
    }
  }

  // ---------------------------------------------------------------------
  // Keyboard
  // ---------------------------------------------------------------------

  /** The arrow key for a heading. */
  function ArrowKey(d: Direction): string {
    match d
    case Up => "ArrowUp"
    case Down => "ArrowDown"
    case Left => "ArrowLeft"
    case Right => "ArrowRight"
  }

  /** The lower-case WASD letter for a heading. */
  function LetterKey(d: Direction): string {
    match d
    case Up => "w"
    case Down => "s"
    case Left => "a"
    case Right => "d"
  }

  /**
   * The key table: a key maps to a heading exactly when it is that
   * heading's arrow key or WASD letter; every other key is unmapped.
   */
  function KeyDirection(key: string): (r: Option<Direction>)
    ensures r.Some? ==> key == ArrowKey(r.value) || key == LetterKey(r.value)
    ensures r.None? <==> forall d :: key != ArrowKey(d) && key != LetterKey(d)
  {
    if key == "ArrowUp" || key == "w" then Some(Up)
    else if key == "ArrowDown" || key == "s" then Some(Down)
    else if key == "ArrowLeft" || key == "a" then Some(Left)
    else if key == "ArrowRight" || key == "d" then Some(Right)
    else None
  }

  /** Both keys of every heading are in the table. */
  lemma EveryHeadingHasTwoKeys(d: Direction)
    ensures KeyDirection(ArrowKey(d)) == Some(d) && KeyDirection(LetterKey(d)) == Some(d)
    ensures ArrowKey(d) != LetterKey(d)
  {
  }

  /**
   * A key press while playing commits a mapped heading unless it is the
   * exact reverse of the committed one; everything else is ignored.
   */
  function KeyDown(s: Arcade, key: string): (r: Arcade)
    ensures r.direction != Opposite(s.direction)
    ensures r == s.(direction := r.direction)
    ensures r.direction != s.direction <==>
      && s.phase == Playing
      && KeyDirection(key).Some?
      && KeyDirection(key).value != s.direction
      && KeyDirection(key).value != Opposite(s.direction)
    ensures r.direction != s.direction ==> Some(r.direction) == KeyDirection(key)
  {
    if s.phase != Playing then s
    else match KeyDirection(key)
      case None => s
      case Some(d) => if Opposite(d) != s.direction then s.(direction := d) else s
  }

  lemma KeyDownPreservesValid(s: Arcade, key: string)
    requires Valid(s)
    ensures Valid(KeyDown(s, key))
  {
  }

  // ---------------------------------------------------------------------
  // Runs of events
  // ---------------------------------------------------------------------

  /**
   * The overlay's inputs: a timer tick (with its food draw), a key, a
   * click on the start button, which is shown only while not playing.
   */
  datatype Event = TickEvent(spawn: Cell) | KeyEvent(key: string) | StartEvent

  function Apply(s: Arcade, e: Event): (r: Arcade)
    requires s.snake != []
    ensures r.snake != []
  {
    match e
    case TickEvent(spawn) => Tick(s, spawn)
    case KeyEvent(key) => KeyDown(s, key)
    case StartEvent => if s.phase != Playing then Start(s) else s
  }

  function Run(s: Arcade, events: seq<Event>): (r: Arcade)
    requires s.snake != []
    ensures r.snake != []
    decreases |events|
  {
    if events == [] then s else Run(Apply(s, events[0]), events[1..])
  }

  /** Every food draw the sampler could have made is on the board. */
  predicate SpawnsInBounds(events: seq<Event>) {
    forall i :: 0 <= i < |events| && events[i].TickEvent? ==> InBounds(events[i].spawn)
  }

  /** Every state reachable from a valid state is valid. */
  lemma {:induction false} RunPreservesValid(s: Arcade, events: seq<Event>)
    requires Valid(s) && SpawnsInBounds(events)
    ensures Valid(Run(s, events))
    decreases |events|
  {
    if events != [] {
      match events[0] {
        case TickEvent(spawn) => TickPreservesValid(s, spawn);
        case KeyEvent(key) => KeyDownPreservesValid(s, key);
        case StartEvent =>
      }
      RunPreservesValid(Apply(s, events[0]), events[1..]);
    }
  }

  /** The high score never decreases, whatever happens. */
  lemma {:induction false} HighScoreNeverDecreases(s: Arcade, events: seq<Event>)
    requires s.snake != []
    ensures Run(s, events).highScore >= s.highScore
    decreases |events|
  {
    if events != [] {
      HighScoreNeverDecreases(Apply(s, events[0]), events[1..]);
    }
  }

  /** A finished game stays exactly as it ended until the next start. */
  lemma {:induction false} GameOverIsFrozen(s: Arcade, events: seq<Event>)
    requires s.snake != [] && s.phase == GameOver
    requires forall i :: 0 <= i < |events| ==> !events[i].StartEvent?
    ensures Run(s, events) == s
    decreases |events|
  {
    if events != [] {
      GameOverIsFrozen(Apply(s, events[0]), events[1..]);
    }
  }

  // ---------------------------------------------------------------------
  // Worked scenarios
  // ---------------------------------------------------------------------

  /** From the start position one tick moves right without eating. */
  lemma FirstTickMovesRight(high: nat)
    ensures Tick(Initial.(phase := Playing, highScore := high), Cell(0, 0))
      == Initial.(phase := Playing, highScore := high, snake := [Cell(11, 10)])
  {
  }

  /** Reaching the food grows the snake and scores; the old food cell becomes the head. */
  lemma EatingGrows(spawn: Cell)
    ensures
      var s := Arcade(Playing, [Cell(14, 10)], StartFood, Right, 0, 0);
      Tick(s, spawn) == s.(snake := [Cell(15, 10), Cell(14, 10)], score := 10, food := spawn)
  {
  }

  /** Leaving the board on the left ends the game and records the score. */
  lemma WallEndsGame(score: nat, high: nat)
    ensures
      var s := Arcade(Playing, [Cell(0, 10)], StartFood, Left, score, high);
      Tick(s, StartFood) == s.(phase := GameOver, highScore := Max(high, score))
  {
  }

  /** Running into the body ends the game through the self-collision rule. */
  lemma BodyEndsGame()
    ensures
      var s := Arcade(Playing, [Cell(5, 5), Cell(5, 6), Cell(6, 6), Cell(6, 5), Cell(6, 4)],
                      StartFood, Right, 40, 0);
      InBounds(NextHead(s)) && Tick(s, StartFood) == s.(phase := GameOver, highScore := 40)
  {
  }

  /**
   * The food sampler excludes the pre-move snake only, so the fresh food
   * may be drawn on the cell the head has just entered.
   */
  lemma FoodMayLandOnNewHead()
    ensures
      var s := Arcade(Playing, [Cell(14, 10)], StartFood, Right, 0, 0);
      FoodChoice(s.snake, StartFood) && Tick(s, StartFood).food == Tick(s, StartFood).snake[0]
  {
  }

  /**
   * The reversal check compares with the last committed heading, not the
   * heading of the last move: two quick presses between ticks turn the
   * snake back onto its neck.
   */
  lemma QuickTurnHitsNeck(spawn: Cell)
    ensures
      var s := Arcade(Playing, [Cell(10, 10), Cell(9, 10)], StartFood, Right, 10, 0);
      var turned := KeyDown(KeyDown(s, "s"), "a");
      && turned.direction == Opposite(s.direction)
      && Tick(turned, spawn).phase == GameOver
  {
  }
}
