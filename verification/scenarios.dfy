/**
 Consequences of the game's rules that are easy to miss when reading the
 update loop: how a press interacts with a finished game, what CANCEL does to
 a running one, and the cases the move does not guard against.
 */
module GameScenarios {
  import opened Board
  import opened Controls
  import opened SnakeGame

  /** A direction pressed in the frame after the head left the field restarts
      the game flag before the game-over branch is reached, so the prompt is
      never raised and play continues from off the field. */
  lemma PressAfterGameOverSkipsPrompt(g: State, held: set<Button>, delta: int)
    requires |g.snake| > 0
    requires g.game == Over
    requires FirstHeld(Priority, held).Pressed?
    requires FirstHeld(Priority, held).button != CancelKey
    ensures Update(g, held, delta).dialog == g.dialog
    ensures Update(g, held, delta).game != Idle
  {
  }

  /** CANCEL held with no direction clears the game flag before the timer
      is consulted: the snake freezes while the time still accumulates. */
  lemma CancelFreezes(g: State, held: set<Button>, delta: int)
    requires |g.snake| > 0
    requires FirstHeld(Priority, held) == Pressed(CancelKey)
    ensures var r := Update(g, held, delta);
      && r.game == Idle
      && r.snake == g.snake && r.food == g.food && r.direction == g.direction
      && r.step == g.step + delta
  {
  }

  /** Time accumulated before the first press is not discarded: pressing a
      direction on a stale timer moves the snake in that same frame. */
  lemma StaleTimerMovesOnFirstPress(g: State, held: set<Button>, delta: int)
    requires |g.snake| > 0
    requires g.game == Idle
    requires RightKey in held
    requires g.step + delta > StepIntervalMs
    ensures var r := Update(g, held, delta);
      r.step == 0 && r.snake[0] == NextHead(g.snake[0], Right)
  {
  }

  /** With no heading the head stays put, yet food lying under it is still
      eaten and the snake grows. */
  lemma EatsWithoutMoving(g: State)
    requires |g.snake| > 0
    requires g.direction == Unset
    requires g.snake[0] in g.food
    ensures var r := Move(g);
      && r.snake[..|g.snake|] == g.snake
      && r.snake[|g.snake|] == g.snake[0]
      && r.score == g.score + 1
  {
  }

  /** The head may land on the body without ending the game: only leaving the
      field is fatal, so a head that moves onto a segment the move keeps,
      inside the field, leaves the game flag as it was. */
  lemma SelfCrossingIsNotFatal(g: State)
    requires |g.snake| > 0
    requires g.direction != Unset
    requires InBoard(NextHead(g.snake[0], g.direction))
    requires NextHead(g.snake[0], g.direction) in g.snake[..|g.snake| - 1]
    ensures var r := Move(g);
      r.snake[0] in r.snake[1..] && r.game == g.game
  {
    var r := Move(g);
    var head := NextHead(g.snake[0], g.direction);
    var n := |g.snake|;
    var i :| 0 <= i < n - 1 && g.snake[..n - 1][i] == head;
    assert r.snake[..n][1..] == g.snake[..n - 1];
    assert r.snake[1..][i] == head;
  }

  /** One board on which it happens: the snake curls round and moves down
      onto its own body while the game stays on. */
  lemma SelfCrossingExample()
    ensures var body := [(1, 1), (2, 1), (2, 2), (1, 2), (0, 2), (0, 3)];
      var g := State(body, [], Down, 0, 5, On, false);
      var r := Move(g);
      && r.snake[0] == (1, 2) && r.snake[0] in r.snake[1..]
      && r.game == On
  {
    var body := [(1, 1), (2, 1), (2, 2), (1, 2), (0, 2), (0, 3)];
    var g := State(body, [], Down, 0, 5, On, false);
    assert Move(g).snake == [(1, 2)] + body[..5];
    assert Move(g).snake[4] == (1, 2);
  }

  /** There is no guard against reversing: pressing the button opposite to
      the current heading is accepted, and a move in that frame steps back
      the way the snake came. */
  lemma ReversalAccepted(g: State, held: set<Button>, delta: int)
    requires |g.snake| > 0
    requires g.direction != Unset
    requires FirstHeld(Priority, held).Pressed?
    requires Steering(FirstHeld(Priority, held).button) == Opposite(g.direction)
    ensures var r := Update(g, held, delta);
      && r.direction == Opposite(g.direction)
      && (r.step == 0 && g.step + delta != 0 ==>
            NextHead(r.snake[0], g.direction) == g.snake[0])
  {
  }
}
