/**
 The Snake game of the badge app: one immutable game record and the pure
 operations the app applies to it — one update per frame (steering from the
 held buttons, then the half-second movement timer), the snake's move,
 dropping food on a cell, and restarting.
 */
module SnakeGame {
  import opened Board
  import opened Lists
  import opened Controls

  /** The game flag: Idle is the empty flag (not started, cancelled, or the
      game-over prompt already raised), On while playing, Over once the head
      has left the field. */
  datatype Phase = Idle | On | Over

  /** The game record. `snake` lists the body cells head first; `food` lists
      the food cells in the order they appeared; `step` is the milliseconds
      accumulated towards the next move; `dialog` is whether the "Play
      Again?" prompt has been raised. */
  datatype State = State(
    snake: seq<Cell>,
    food: seq<Cell>,
    direction: Direction,
    step: int,
    score: int,
    game: Phase,
    dialog: bool)

  /** The snake moves once the accumulated time exceeds this many milliseconds. */
  const StepIntervalMs: int := 500

  /** The state of a freshly opened app. */
  function Initial(): (g: State)
    ensures g.snake == [Start] && g.food == [] && g.direction == Unset
    ensures g.step == 0 && g.score == 0 && g.game == Idle && !g.dialog
  {
    State([Start], [], Unset, 0, 0, Idle, false)
  }

  /** Restart: everything but the timer and the game flag returns to its
      initial value. */
  function Reset(g: State): (r: State)
    ensures r == Initial().(step := g.step, game := g.game)
  {
    g.(snake := [Start], food := [], direction := Unset, score := 0, dialog := false)
  }

  /** The body after the head advances one cell in direction d and the last
      segment is dropped; with no direction the body stays where it is. */
  function Advance(body: seq<Cell>, d: Direction): (r: seq<Cell>)
    requires |body| > 0
    ensures |r| == |body|
    ensures r[0] == NextHead(body[0], d)
    ensures d != Unset ==> r[1..] == body[..|body| - 1]
    ensures d == Unset ==> r == body
  {
    if d == Unset then body else [NextHead(body[0], d)] + body[..|body| - 1]
  }

  /** One move of the snake: advance, eat the food under the new head if
      there is any, then end the game if the head is off the field. The body
      is not checked against itself. */
  function Move(g: State): (r: State)
    requires |g.snake| > 0
    ensures |g.snake| <= |r.snake| <= |g.snake| + 1
    ensures r.snake[0] == NextHead(g.snake[0], g.direction)
    ensures r.snake[..|g.snake|] == Advance(g.snake, g.direction)
    ensures r.direction == g.direction && r.step == g.step && r.dialog == g.dialog
    ensures var head := r.snake[0];
      if head in g.food then
        && |r.snake| == |g.snake| + 1
        && r.snake[|g.snake|] == head
        && multiset(r.food) == multiset(g.food) - multiset{head}
        && r.score == g.score + 1
      else
        && |r.snake| == |g.snake|
        && r.food == g.food
        && r.score == g.score
    ensures InBoard(r.snake[0]) ==> r.game == g.game
    ensures !InBoard(r.snake[0]) ==> r.game == Over
  {
    var body := Advance(g.snake, g.direction);
    var head := body[0];
    var fed :=
      if head in g.food then
        RemoveFirstCounts(g.food, head);
        g.(snake := body + [head], food := RemoveFirst(g.food, head), score := g.score + 1)
      else g.(snake := body);
    if InBoard(head) then fed else fed.(game := Over)
  }

  /** Reacts to the held buttons: the first held button in Priority order
      wins; a direction button sets the heading and starts the game, CANCEL
      clears the game flag, and with nothing relevant held nothing changes. */
  function Steer(g: State, held: set<Button>): (r: State)
    ensures var p := FirstHeld(Priority, held);
      && (p.NoPress? ==> r == g)
      && (p == Pressed(CancelKey) ==> r == g.(game := Idle))
      && (p.Pressed? && p.button != CancelKey ==>
            r == g.(direction := Steering(p.button), game := On) && r.direction != Unset)
  {
    PriorityUnfolds(held);
    if RightKey in held then g.(direction := Right, game := On)
    else if LeftKey in held then g.(direction := Left, game := On)
    else if UpKey in held then g.(direction := Up, game := On)
    else if DownKey in held then g.(direction := Down, game := On)
    else if CancelKey in held then g.(game := Idle)
    else g
  }

  /** Whether the movement timer fires in this update. */
  predicate Due(g: State, delta: int) {
    g.game == On && g.step + delta > StepIntervalMs
  }

  /** The timer half of an update: the elapsed time always accumulates; a
      running game moves once the total exceeds StepIntervalMs and the timer
      restarts from zero, the excess discarded; a finished game raises the
      prompt once and clears its flag. */
  function Tick(g: State, delta: int): (r: State)
    requires Due(g, delta) ==> |g.snake| > 0
    ensures |g.snake| > 0 ==> |r.snake| > 0
    ensures Due(g, delta) ==> r.step == 0 && r == Move(g.(step := 0))
    ensures !Due(g, delta) ==>
      && r.step == g.step + delta
      && r.snake == g.snake && r.food == g.food && r.score == g.score
      && r.direction == g.direction
    ensures g.game == Over ==> r.game == Idle && r.dialog
    ensures g.game == Idle ==> r.game == Idle && r.dialog == g.dialog
    ensures g.game == On && !Due(g, delta) ==> r.game == On && r.dialog == g.dialog
  {
    var t := g.(step := g.step + delta);
    match t.game
    case On => if t.step > StepIntervalMs then Move(t.(step := 0)) else t
    case Over => t.(dialog := true, game := Idle)
    case Idle => t
  }

  /** One frame of the game: steer from the held buttons, then run the timer.
      A direction press starts the game in the same frame, so the timer may
      fire at once; CANCEL stops it before the timer is consulted. */
  function Update(g: State, held: set<Button>, delta: int): (r: State)
    requires Due(Steer(g, held), delta) ==> |g.snake| > 0
    ensures |g.snake| > 0 ==> |r.snake| > 0
    ensures var p := FirstHeld(Priority, held);
      var steered := p.Pressed? && p.button != CancelKey;
      var phase := if steered then On else if p.Pressed? then Idle else g.game;
      var moved := phase == On && g.step + delta > StepIntervalMs;
      && r.direction == (if steered then Steering(p.button) else g.direction)
      && r.step == (if moved then 0 else g.step + delta)
      && (moved ==> r == Move(g.(direction := r.direction, game := On, step := 0)))
      && (moved ==> r.snake[0] == NextHead(g.snake[0], r.direction))
      && (!moved ==> r.snake == g.snake && r.food == g.food && r.score == g.score)
      && (phase == On && !moved ==> r.game == On && r.dialog == g.dialog)
      && (phase == Idle ==> r.game == Idle && r.dialog == g.dialog)
      && (phase == Over ==> r.game == Idle && r.dialog)
  {
    PriorityUnfolds(held);
    Tick(Steer(g, held), delta)
  }

  /** Drops food on cell c unless there is food there already. */
  function GenerateFood(g: State, c: Cell): (r: State)
    ensures r == g.(food := r.food)
    ensures c in r.food
    ensures forall x :: x in r.food <==> x in g.food || x == c
    ensures |r.food| == if c in g.food then |g.food| else |g.food| + 1
    ensures r.food[..|g.food|] == g.food
    ensures NoDup(g.food) ==> NoDup(r.food)
  {
    if c in g.food then g else g.(food := g.food + [c])
  }
}
