/**
 * The arena: a 10 x 10 grid of cells, the four headings a snake can have,
 * and the one-cell move along a heading.
 *
 * Coordinates are the source's `i32` values. They are modelled as `int`;
 * `Snek.Game.Frame` proves that between frames every coordinate stays in
 * [-1, 10], so no arithmetic here comes near the `i32` range.
 */
module Grid {

  const ARENA_WIDTH: int := 10
  const ARENA_HEIGHT: int := 10

  /** A grid cell; the origin is the bottom-left cell. */
  datatype Position = Position(x: int, y: int)

  datatype Direction = Left | Up | Right | Down {
    predicate IsHorizontal() {
      this == Left || this == Right
    }
  }

  /** The heading that points the other way. */
  function Opposite(d: Direction): (r: Direction)
    ensures r != d
    ensures r.IsHorizontal() == d.IsHorizontal()
  {
    match d
    case Left => Right
    case Up => Down
    case Right => Left
    case Down => Up
  }

  /** Turning round twice is no turn at all. */
  lemma OppositeInvolution(d: Direction)
    ensures Opposite(Opposite(d)) == d
  {
  }

  /** The pairs are exactly Left/Right and Up/Down. */
  lemma OppositePairs(d: Direction, e: Direction)
    ensures Opposite(d) == e <==> ({d, e} == {Left, Right} || {d, e} == {Up, Down})
  {
  }

  /**
   * The cell one step from `p` along `d`: a neighbouring cell (no diagonal),
   * on the same row exactly when the heading is horizontal, and further
   * right or up exactly when the heading is Right or Up.
   */
  function Step(p: Position, d: Direction): (r: Position)
    ensures Distance(p, r) == 1
    ensures r.y == p.y <==> d.IsHorizontal()
    ensures r.x + r.y > p.x + p.y <==> d == Right || d == Up
  {
    match d
    case Left => p.(x := p.x - 1)
    case Right => p.(x := p.x + 1)
    case Up => p.(y := p.y + 1)
    case Down => p.(y := p.y - 1)
  }

  /** Manhattan distance between two cells. */
  function Distance(p: Position, q: Position): nat {
    Abs(p.x - q.x) + Abs(p.y - q.y)
  }

  function Abs(n: int): nat {
    if n < 0 then -n else n
  }

  /**
   * The game-over test on the head's cell, as the source writes it: the
   * y coordinate is compared with the arena WIDTH. The cast to `u32` in the
   * source is applied only after both coordinates are known to be
   * non-negative, so it changes no value. Because the arena is square,
   * the test holds exactly for the cells outside it.
   */
  function OutOfArena(p: Position): (r: bool)
    ensures r <==> !InArena(p)
  {
    p.x < 0 || p.y < 0 || p.x >= ARENA_WIDTH || p.y >= ARENA_WIDTH
  }

  /** A cell of the arena. */
  predicate InArena(p: Position) {
    0 <= p.x < ARENA_WIDTH && 0 <= p.y < ARENA_HEIGHT
  }

  /** The cells at most one step outside the arena. */
  predicate InBand(p: Position) {
    -1 <= p.x <= ARENA_WIDTH && -1 <= p.y <= ARENA_HEIGHT
  }

  /** One step from a cell of the arena never leaves the band around it. */
  lemma StepFromArena(p: Position, d: Direction)
    requires InArena(p)
    ensures InBand(Step(p, d))
  {
  }
}
