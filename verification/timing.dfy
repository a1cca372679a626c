/**
 The half-second movement timer over many frames. `Run` plays a sequence of
 frames with no button held; the lemmas say when the snake moves and what
 happens to the time in between.
 */
module Timing {
  import opened Board
  import opened Controls
  import opened SnakeGame

  function Sum(deltas: seq<int>): int {
    if |deltas| == 0 then 0 else deltas[0] + Sum(deltas[1..])
  }

  /** n frames of d milliseconds each. */
  function Repeat(d: int, n: nat): (ds: seq<int>)
    ensures |ds| == n
    ensures forall i :: 0 <= i < n ==> ds[i] == d
  {
    if n == 0 then [] else [d] + Repeat(d, n - 1)
  }

  /** The frames `deltas` played in order with no button held. */
  function Run(g: State, deltas: seq<int>): (r: State)
    requires |g.snake| > 0
    ensures |r.snake| > 0
    decreases |deltas|
  {
    if |deltas| == 0 then g else Run(Update(g, {}, deltas[0]), deltas[1..])
  }

  lemma {:induction false} SumNonNegative(deltas: seq<int>)
    requires forall i :: 0 <= i < |deltas| ==> deltas[i] >= 0
    ensures Sum(deltas) >= 0
  {
    if |deltas| > 0 {
      SumNonNegative(deltas[1..]);
    }
  }

  lemma {:induction false} SumRepeat(d: int, n: nat)
    ensures Sum(Repeat(d, n)) == n * d
  {
    if n > 0 {
      assert Repeat(d, n)[1..] == Repeat(d, n - 1);
      SumRepeat(d, n - 1);
    }
  }

  /** While the game is not running, frames only add up time: the snake
      stays put and the timer holds the whole elapsed total. */
  lemma {:induction false} IdleAccumulates(g: State, deltas: seq<int>)
    requires |g.snake| > 0
    requires g.game == Idle
    ensures Run(g, deltas) == g.(step := g.step + Sum(deltas))
    decreases |deltas|
  {
    if |deltas| > 0 {
      var next := Update(g, {}, deltas[0]);
      assert next == g.(step := g.step + deltas[0]);
      IdleAccumulates(next, deltas[1..]);
    }
  }

  /** In a running game, as long as the accumulated time does not exceed
      StepIntervalMs, nothing but the timer changes. */
  lemma {:induction false} WaitsBelowThreshold(g: State, deltas: seq<int>)
    requires |g.snake| > 0
    requires g.game == On
    requires forall i :: 0 <= i < |deltas| ==> deltas[i] >= 0
    requires g.step + Sum(deltas) <= StepIntervalMs
    ensures Run(g, deltas) == g.(step := g.step + Sum(deltas))
    decreases |deltas|
  {
    if |deltas| > 0 {
      SumNonNegative(deltas[1..]);
      var next := Update(g, {}, deltas[0]);
      assert next == g.(step := g.step + deltas[0]);
      WaitsBelowThreshold(next, deltas[1..]);
    }
  }

  /** With frames of a fixed length d, a running game whose timer starts at
      zero waits StepIntervalMs / d frames and moves on the next one. */
  lemma Cadence(g: State, d: int)
    requires |g.snake| > 0
    requires g.game == On && g.step == 0
    requires 0 < d
    ensures var n := StepIntervalMs / d;
      var w := Run(g, Repeat(d, n));
      var r := Update(w, {}, d);
      && w == g.(step := n * d)
      && r.step == 0
      && r.snake[0] == NextHead(g.snake[0], g.direction)
  {
    var n := StepIntervalMs / d;
    SumRepeat(d, n);
    WholeFrames(StepIntervalMs, d);
    WaitsBelowThreshold(g, Repeat(d, n));
    var w := g.(step := n * d);
    assert Due(w, d);
  }

  /** n / d whole frames of d fit into n; one more does not. */
  lemma WholeFrames(n: nat, d: int)
    requires 0 < d
    ensures (n / d) * d <= n < (n / d) * d + d
  {
  }

  /** The time by which the timer overshoots is dropped, not carried into
      the next interval: once the timer fires, how far past the threshold it
      was makes no difference. */
  lemma ExcessDiscarded(g: State, held: set<Button>, delta: int, a: int, b: int)
    requires |g.snake| > 0
    requires Steer(g, held).game == On
    requires a + delta > StepIntervalMs && b + delta > StepIntervalMs
    ensures Update(g.(step := a), held, delta) == Update(g.(step := b), held, delta)
  {
  }
}
