/**
 The Snake board: integer cells, the 32 × 32 playing field, the start cell and
 the four headings the snake can take. The y coordinate grows downward, as on
 the badge's screen, so UP decreases y.
 */
module Board {

  /** A board cell (x, y). Cells off the field are representable: the head
      leaves the field before the game notices. */
  type Cell = (int, int)

  /** The field is Size × Size cells, 0 <= x, y < Size. */
  const Size: int := 32

  /** Where a new snake is born. */
  const Start: Cell := (16, 16)

  predicate InBoard(c: Cell) {
    0 <= c.0 < Size && 0 <= c.1 < Size
  }

  /** The heading of the snake; Unset is the empty heading of a fresh game. */
  datatype Direction = Unset | Right | Left | Up | Down

  function Abs(n: int): nat {
    if n < 0 then -n else n
  }

  /** Manhattan distance between two cells. */
  function Distance(a: Cell, b: Cell): nat {
    Abs(a.0 - b.0) + Abs(a.1 - b.1)
  }

  /** Two cells are neighbours or the same cell. */
  predicate Near(a: Cell, b: Cell) {
    Distance(a, b) <= 1
  }

  /** The cell the head moves to when heading d; each coordinate change
      identifies the heading that caused it. */
  function NextHead(c: Cell, d: Direction): (r: Cell)
    ensures r.0 == c.0 + 1 <==> d == Right
    ensures r.0 == c.0 - 1 <==> d == Left
    ensures r.1 == c.1 - 1 <==> d == Up
    ensures r.1 == c.1 + 1 <==> d == Down
    ensures r == c <==> d == Unset
    ensures d != Unset ==> Distance(c, r) == 1
  {
    match d
    case Unset => c
    case Right => (c.0 + 1, c.1)
    case Left => (c.0 - 1, c.1)
    case Up => (c.0, c.1 - 1)
    case Down => (c.0, c.1 + 1)
  }

  /** The heading that points back the way d came. */
  function Opposite(d: Direction): Direction {
    match d
    case Unset => Unset
    case Right => Left
    case Left => Right
    case Up => Down
    case Down => Up
  }
}
