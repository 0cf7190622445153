/**
 * How a key press becomes the snake's next heading: the press is buffered
 * in `next_direction` every frame, and the buffer is committed on a tick.
 */
module Steering {
  import opened Wrappers
  import opened Grid

  /** A buffered heading is a real turn: neither straight on nor straight back. */
  predicate IsTurn(heading: Direction, d: Direction) {
    d != heading && d != Opposite(heading)
  }

  /** The invariant on the buffer: whatever it holds is a turn from the current heading. */
  predicate Consistent(heading: Direction, next: Option<Direction>) {
    next.Some? ==> IsTurn(heading, next.value)
  }

  /**
   * The buffer after this frame's key press: a turn is buffered, a press
   * straight on or straight back clears the buffer, and no press leaves it.
   */
  function Buffered(heading: Direction, next: Option<Direction>, pressed: Option<Direction>): (r: Option<Direction>)
    ensures pressed.None? ==> r == next
    ensures pressed.Some? && IsTurn(heading, pressed.value) ==> r == pressed
    ensures pressed.Some? && !IsTurn(heading, pressed.value) ==> r == None
  {
    match pressed
    case None => next
    case Some(d) => if d != heading && d != Opposite(heading) then Some(d) else None
  }

  /** Buffering keeps the invariant on the buffer. */
  lemma BufferedConsistent(heading: Direction, next: Option<Direction>, pressed: Option<Direction>)
    requires Consistent(heading, next)
    ensures Consistent(heading, Buffered(heading, next, pressed))
  {
  }

  /**
   * The heading committed on a tick: the buffered one if any, otherwise
   * straight on. Under the invariant on the buffer it is never straight back.
   */
  function Committed(heading: Direction, next: Option<Direction>): (r: Direction)
    ensures Consistent(heading, next) ==> r != Opposite(heading)
    ensures next.Some? ==> r == next.value
    ensures next.None? ==> r == heading
  {
    next.GetOr(heading)
  }

  /**
   * Under the invariant a tick never reverses the snake: the committed
   * heading is never the opposite of the heading before the tick, whatever
   * key was pressed this frame.
   */
  lemma NoReversal(heading: Direction, next: Option<Direction>, pressed: Option<Direction>)
    requires Consistent(heading, next)
    ensures Committed(heading, Buffered(heading, next, pressed)) != Opposite(heading)
  {
  }
}
