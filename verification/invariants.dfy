/**
 What every reachable game record satisfies, and the proofs that the app's
 operations keep it: the snake is never empty, the score counts exactly the
 segments grown, the food list holds distinct cells on the field, and the
 body is a chain of neighbouring cells (the one exception is the segment a
 meal just added at the tail, which sits on the head's cell until the next
 move drops it).
 */
module SnakeInvariants {
  import opened Board
  import opened Lists
  import opened Controls
  import opened SnakeGame

  /** Every pair of consecutive segments is adjacent or coincides, except
      possibly the last pair. */
  predicate Chain(body: seq<Cell>) {
    forall i :: 0 <= i < |body| - 2 ==> Near(body[i], body[i + 1])
  }

  /** All segments sit on one cell: the shape of a snake that has never moved. */
  predicate Coiled(body: seq<Cell>) {
    forall i :: 0 <= i < |body| ==> body[i] == body[0]
  }

  predicate Valid(g: State) {
    && |g.snake| > 0
    && g.score + 1 == |g.snake|
    && NoDup(g.food)
    && (forall i :: 0 <= i < |g.food| ==> InBoard(g.food[i]))
    && Chain(g.snake)
    && (g.direction == Unset ==> Coiled(g.snake))
  }

  lemma InitialValid()
    ensures Valid(Initial())
  {
  }

  lemma ResetValid(g: State)
    ensures Valid(Reset(g))
  {
  }

  /** A move keeps the body a chain: the new head is next to the old one,
      and growth only copies the head onto the tail. */
  lemma MoveKeepsChain(body: seq<Cell>, d: Direction, grow: bool)
    requires |body| > 0
    requires Chain(body)
    requires d == Unset ==> Coiled(body)
    ensures var moved := Advance(body, d);
      var r := if grow then moved + [moved[0]] else moved;
      Chain(r) && (d == Unset ==> Coiled(r))
  {
  }

  lemma MoveValid(g: State)
    requires Valid(g)
    ensures Valid(Move(g))
  {
    var r := Move(g);
    var head := NextHead(g.snake[0], g.direction);
    var moved := Advance(g.snake, g.direction);
    var grow := head in g.food;
    MoveKeepsChain(g.snake, g.direction, grow);
    if grow {
      assert r.snake == moved + [moved[0]];
      RemoveFirstNoDup(g.food, head);
      forall i | 0 <= i < |r.food|
        ensures InBoard(r.food[i])
      {
        assert r.food[i] in multiset(g.food);
      }
    } else {
      assert r.snake == moved;
    }
  }

  lemma SteerValid(g: State, held: set<Button>)
    requires Valid(g)
    ensures Valid(Steer(g, held))
  {
  }

  /** Every frame keeps the game record valid. */
  lemma UpdateValid(g: State, held: set<Button>, delta: int)
    requires Valid(g)
    ensures Valid(Update(g, held, delta))
  {
    var s := Steer(g, held);
    SteerValid(g, held);
    var t := s.(step := s.step + delta);
    if Due(s, delta) {
      MoveValid(t.(step := 0));
    }
  }

  /** Food dropped on the field keeps the food list valid. */
  lemma GenerateFoodValid(g: State, c: Cell)
    requires Valid(g)
    requires InBoard(c)
    ensures Valid(GenerateFood(g, c))
  {
  }

  /** What the host can do to the game: run a frame, drop food (from the
      background task), or restart (either answer to the prompt). */
  datatype Event = Frame(held: set<Button>, delta: int) | DropFood(cell: Cell) | Restart

  function Apply(g: State, e: Event): (r: State)
    requires |g.snake| > 0
    ensures |r.snake| > 0
  {
    match e
    case Frame(held, delta) => Update(g, held, delta)
    case DropFood(c) => GenerateFood(g, c)
    case Restart => Reset(g)
  }

  function Play(g: State, events: seq<Event>): (r: State)
    requires |g.snake| > 0
    ensures |r.snake| > 0
    decreases |events|
  {
    if |events| == 0 then g else Play(Apply(g, events[0]), events[1..])
  }

  /** Every game the host can drive from a valid record, with food dropped
      only on the field, stays valid; in particular every game that starts
      from Initial(). */
  lemma {:induction false} PlayValid(g: State, events: seq<Event>)
    requires Valid(g)
    requires forall i :: 0 <= i < |events| && events[i].DropFood? ==> InBoard(events[i].cell)
    ensures Valid(Play(g, events))
    decreases |events|
  {
    if |events| > 0 {
      match events[0] {
        case Frame(held, delta) => UpdateValid(g, held, delta);
        case DropFood(c) => GenerateFoodValid(g, c);
        case Restart => ResetValid(g);
      }
      PlayValid(Apply(g, events[0]), events[1..]);
    }
  }
}
