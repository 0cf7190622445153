/**
 * The rules of one frame as functions on the whole game state, one per
 * engine system. The methods of `Snek.Game` are proved to perform exactly
 * these transitions; the lemmas here state what the transitions promise.
 */
module Rules {
  import opened Wrappers
  import opened Grid
  import opened Steering
  import opened Body
  import opened Feeding

  /**
   * Everything the systems read or write: the head's cell, heading and
   * buffered heading, the segments in query order, the food items, the
   * last tail cell, and the game-over and growth events sent but not yet read.
   */
  datatype State = State(
    head: Position,
    direction: Direction,
    nextDirection: Option<Direction>,
    segments: seq<Position>,
    food: seq<Position>,
    lastTail: Option<Position>,
    gameOverSignals: nat,
    growthSignals: nat)

  /** The startup state: one segment at (3, 2), the head at (3, 3) heading Up, nothing else. */
  const Initial := State(Position(3, 3), Up, None, [Position(3, 2)], [], None, 0, 0)

  /**
   * What holds between frames: the buffered heading is a turn, food lies
   * in the arena, and every cell of the snake is at most one step out of it.
   */
  ghost predicate Valid(s: State) {
    Consistent(s.direction, s.nextDirection) &&
    InBand(s.head) &&
    (forall p :: p in s.segments ==> InBand(p)) &&
    (s.lastTail.Some? ==> InBand(s.lastTail.value)) &&
    (forall p :: p in s.food ==> InArena(p))
  }

  /** Between frames every event sent has been read. */
  predicate Quiescent(s: State) {
    s.gameOverSignals == 0 && s.growthSignals == 0
  }

  /**
   * `spawn_initial_snake`: one segment at (3, 2) and a fresh head, as at
   * startup; food, last tail and events are untouched.
   */
  function SpawnedSnake(s: State): (r: State)
    ensures r == Initial.(food := s.food, lastTail := s.lastTail,
                          gameOverSignals := s.gameOverSignals, growthSignals := s.growthSignals)
  {
    s.(head := Position(3, 3), direction := Up, nextDirection := None, segments := [Position(3, 2)])
  }

  /**
   * The heading committed on a tick after this frame's press: while the
   * buffer holds a turn, never straight back.
   */
  function Turned(s: State, pressed: Option<Direction>): (r: Direction)
    ensures Consistent(s.direction, s.nextDirection) ==> r != Opposite(s.direction)
  {
    Committed(s.direction, Buffered(s.direction, s.nextDirection, pressed))
  }

  /** Where the head lands on a tick after this frame's press: a neighbouring cell. */
  function NewHead(s: State, pressed: Option<Direction>): (r: Position)
    ensures Distance(s.head, r) == 1
  {
    Step(s.head, Turned(s, pressed))
  }

  /** One game-over event when the head's cell, before any move, is outside the arena. */
  function BoundarySignals(s: State): (r: nat)
    ensures r <= 1
    ensures r == 1 <==> !InArena(s.head)
  {
    if OutOfArena(s.head) then 1 else 0
  }

  /**
   * `snek_movement`, with `finished` the movement timer's flag as the last
   * tick left it. It never touches food or growth, keeps the number of
   * segments, moves the head one cell exactly when the timer has finished,
   * and sends at least the boundary event.
   */
  function Moved(s: State, pressed: Option<Direction>, finished: bool): (r: State)
    ensures r.food == s.food && r.growthSignals == s.growthSignals
    ensures |r.segments| == |s.segments|
    ensures Distance(s.head, r.head) == if finished then 1 else 0
    ensures r.gameOverSignals >= s.gameOverSignals + BoundarySignals(s)
  {
    if finished then Advanced(Steered(s, pressed)) else Steered(s, pressed)
  }

  /**
   * The part of `snek_movement` run every frame: the boundary check and
   * the key press. Only the buffer and the game-over events change, the
   * buffer keeps its invariant (and a press always leaves it holding a
   * turn or nothing), and exactly the boundary event is sent.
   */
  function Steered(s: State, pressed: Option<Direction>): (r: State)
    ensures r.(nextDirection := s.nextDirection, gameOverSignals := s.gameOverSignals) == s
    ensures Consistent(s.direction, s.nextDirection) || pressed.Some? ==> Consistent(r.direction, r.nextDirection)
    ensures r.gameOverSignals == s.gameOverSignals + (if InArena(s.head) then 0 else 1)
  {
    s.(nextDirection := Buffered(s.direction, s.nextDirection, pressed),
       gameOverSignals := s.gameOverSignals + BoundarySignals(s))
  }

  /**
   * The part of `snek_movement` run on a tick: commit, step, body shift
   * and last tail. The head moves to a neighbouring cell, the buffer is
   * emptied, the body keeps its length, food and growth are untouched, and
   * one game-over event is sent per segment on the new head cell.
   */
  function Advanced(s: State): (r: State)
    ensures Distance(s.head, r.head) == 1 && r.nextDirection == None && r.lastTail.Some?
    ensures |r.segments| == |s.segments| && r.food == s.food && r.growthSignals == s.growthSignals
    ensures r.gameOverSignals == s.gameOverSignals + multiset(s.segments)[r.head]
  {
    var dir := Committed(s.direction, s.nextDirection);
    var head := Step(s.head, dir);
    var shift := Shift(s.segments, head, s.head);
    ShiftCollides(s.segments, head, s.head);
    s.(head := head, direction := dir, nextDirection := None, segments := shift.body,
       lastTail := Some(shift.carried), gameOverSignals := s.gameOverSignals + shift.hits)
  }

  /**
   * `food_spawner`: a food item on the cell drawn, when its timer has
   * finished. Only the food changes: with no cell drawn nothing changes,
   * and with a cell drawn exactly one item on it is added after the items
   * already there.
   */
  function WithFood(s: State, cell: Option<Position>): (r: State)
    ensures r.(food := s.food) == s
    ensures cell.None? ==> r == s
    ensures cell.Some? ==> r.food == s.food + [cell.value]
    ensures forall p :: p in r.food ==> p in s.food || cell == Some(p)
  {
    match cell
    case None => s
    case Some(p) => s.(food := s.food + [p])
  }

  /**
   * `snek_eating`, with `finished` the movement timer's flag as this
   * frame's tick left it. Only food and growth events change, and every
   * item removed sends one growth event.
   */
  function Eaten(s: State, finished: bool): (r: State)
    ensures r.(food := s.food, growthSignals := s.growthSignals) == s
    ensures r.growthSignals >= s.growthSignals
    ensures |r.food| + (r.growthSignals - s.growthSignals) == |s.food|
  {
    if !finished then s
    else
      UneatenCount(s.food, s.head);
      s.(food := Uneaten(s.food, s.head), growthSignals := s.growthSignals + multiset(s.food)[s.head])
  }

  /** `snek_growth` panics when it reads a growth event and no last tail cell was ever recorded. */
  predicate GrowthPanics(s: State) {
    s.growthSignals > 0 && s.lastTail.None?
  }

  /**
   * `snek_growth`: the events are read; any number of them adds one
   * segment. Only the body and the growth events change, the body keeps
   * its segments in order, and it gains at most one.
   */
  function Grown(s: State): (r: State)
    ensures r.growthSignals == 0
    ensures r.(segments := s.segments, growthSignals := s.growthSignals) == s
    ensures s.segments <= r.segments && |r.segments| <= |s.segments| + 1
  {
    if s.growthSignals > 0 && s.lastTail.Some? then
      s.(segments := s.segments + [s.lastTail.value], growthSignals := 0)
    else
      s.(growthSignals := 0)
  }

  /**
   * `game_over`: the events are read; any number of them clears the board
   * and respawns the snake. The last tail cell and the growth events are
   * never touched, and with no event pending nothing changes.
   */
  function Reset(s: State): (r: State)
    ensures r.gameOverSignals == 0 && r.lastTail == s.lastTail && r.growthSignals == s.growthSignals
    ensures s.gameOverSignals == 0 ==> r == s
  {
    if s.gameOverSignals > 0 then SpawnedSnake(s.(segments := [], food := [], gameOverSignals := 0))
    else s
  }

  /**
   * One frame. `moveFinished` is the movement timer's flag as the previous
   * frame's tick left it, which `snek_movement` reads; `snek_timer` then
   * ticks, and `eatFinished` is its new flag, which `snek_eating` reads.
   * The food spawner only issues a spawn command, which takes effect when
   * the stage's commands are applied, after `game_over`: its item comes
   * last, and neither eating nor a reset in the same frame sees it.
   * Every event sent in a frame is read in it, and a last tail cell is
   * recorded from the first movement tick on.
   */
  function NextFrame(s: State, pressed: Option<Direction>, moveFinished: bool, eatFinished: bool,
                     cell: Option<Position>): (r: State)
    ensures Quiescent(r)
    ensures r.lastTail.Some? <==> s.lastTail.Some? || moveFinished
  {
    WithFood(Reset(Grown(Eaten(Moved(s, pressed, moveFinished), eatFinished))), cell)
  }

  /** The frame panics in `snek_growth`. */
  predicate FramePanics(s: State, pressed: Option<Direction>, moveFinished: bool, eatFinished: bool) {
    GrowthPanics(Eaten(Moved(s, pressed, moveFinished), eatFinished))
  }

  // ---------------------------------------------------------------------
  // Movement

  /**
   * Off a tick nothing moves: only the buffer changes, and exactly one
   * game-over event is sent when the head is out of the arena, none otherwise.
   */
  lemma MovedOffTick(s: State, pressed: Option<Direction>)
    ensures var t := Moved(s, pressed, false);
      t.head == s.head && t.direction == s.direction && t.segments == s.segments &&
      t.lastTail == s.lastTail && t.food == s.food && t.growthSignals == s.growthSignals &&
      t.nextDirection == Buffered(s.direction, s.nextDirection, pressed) &&
      t.gameOverSignals == s.gameOverSignals + BoundarySignals(s)
  {
  }

  /**
   * On a tick the buffered heading (or the old one) is committed and the
   * buffer cleared; the head moves exactly one cell along it; the body keeps
   * its length; every segment on the head's new cell stays put and sends
   * one game-over event, on top of the boundary event.
   */
  lemma {:induction false} MovedOnTick(s: State, pressed: Option<Direction>)
    ensures var t := Moved(s, pressed, true);
      t.direction == Turned(s, pressed) && t.nextDirection == None &&
      t.head == NewHead(s, pressed) && Distance(s.head, t.head) == 1 &&
      |t.segments| == |s.segments| &&
      (forall i :: 0 <= i < |s.segments| && s.segments[i] == t.head ==> t.segments[i] == t.head) &&
      t.gameOverSignals == s.gameOverSignals + BoundarySignals(s) + multiset(s.segments)[t.head] &&
      t.food == s.food && t.growthSignals == s.growthSignals
  {
    ShiftCollides(s.segments, NewHead(s, pressed), s.head);
  }

  /**
   * On a tick with no segment on the head's new cell, segment 0 takes the
   * head's old cell and segment i segment i - 1's old cell, the last tail
   * becomes the old last segment's cell (the head's when there are no
   * segments), and only the boundary check can send a game-over event.
   */
  lemma {:induction false} MovedFollows(s: State, pressed: Option<Direction>)
    requires NewHead(s, pressed) !in s.segments
    ensures var t := Moved(s, pressed, true);
      (forall i :: 0 <= i < |s.segments| ==> t.segments[i] == if i == 0 then s.head else s.segments[i - 1]) &&
      t.lastTail == Some(if s.segments == [] then s.head else s.segments[|s.segments| - 1]) &&
      t.gameOverSignals == s.gameOverSignals + BoundarySignals(s)
  {
    ShiftFollows(s.segments, NewHead(s, pressed), s.head);
  }

  /** A tick never turns the snake straight back. */
  lemma TickNeverReverses(s: State, pressed: Option<Direction>)
    requires Valid(s)
    ensures Moved(s, pressed, true).direction != Opposite(s.direction)
  {
    NoReversal(s.direction, s.nextDirection, pressed);
  }

  // ---------------------------------------------------------------------
  // Eating and growth

  /**
   * On a tick, eating removes exactly the food on the head's cell and sends
   * one growth event per item removed; off a tick it changes nothing.
   */
  lemma {:induction false} EatenExactly(s: State, finished: bool)
    ensures var t := Eaten(s, finished);
      t.head == s.head && t.segments == s.segments && t.lastTail == s.lastTail &&
      (finished ==> multiset(t.food) == multiset(s.food)[s.head := 0] &&
                    t.growthSignals == s.growthSignals + multiset(s.food)[s.head]) &&
      (!finished ==> t == s)
  {
    UneatenExactly(s.food, s.head);
  }

  /** Any number of pending growth events adds exactly one segment, on the last tail cell. */
  lemma GrownByOne(s: State)
    requires !GrowthPanics(s)
    ensures var t := Grown(s);
      t.growthSignals == 0 && t.food == s.food && t.head == s.head &&
      t.segments == if s.growthSignals > 0 then s.segments + [s.lastTail.value] else s.segments
  {
  }

  // ---------------------------------------------------------------------
  // Reset

  /**
   * When a game-over event is pending, the reset state is the startup state
   * except for the last tail cell and the growth events, which `game_over`
   * does not touch.
   */
  lemma ResetIsStartup(s: State)
    requires s.gameOverSignals > 0
    ensures Reset(s) == Initial.(lastTail := s.lastTail, growthSignals := s.growthSignals)
  {
  }

  // ---------------------------------------------------------------------
  // Whole frames

  /** The startup state satisfies the invariant. */
  lemma InitialValid()
    ensures Valid(Initial) && Quiescent(Initial)
  {
  }

  /**
   * A movement step keeps the buffer a turn and the last tail in the band;
   * from a head inside the arena, the head and the body stay in the band too.
   */
  lemma {:induction false} MovedKeepsBand(s: State, pressed: Option<Direction>, finished: bool)
    requires Valid(s)
    ensures var t := Moved(s, pressed, finished);
      Consistent(t.direction, t.nextDirection) &&
      (t.lastTail.Some? ==> InBand(t.lastTail.value)) &&
      (!OutOfArena(s.head) ==> InBand(t.head) && forall p :: p in t.segments ==> InBand(p))
  {
    BufferedConsistent(s.direction, s.nextDirection, pressed);
    if finished {
      ShiftWithin(s.segments, NewHead(s, pressed), s.head);
      if !OutOfArena(s.head) {
        StepFromArena(s.head, Turned(s, pressed));
      }
    }
  }

  /** Eating only removes food, so the food left is still in the arena. */
  lemma EatenKeepsFood(s: State, finished: bool)
    requires forall p :: p in s.food ==> InArena(p)
    ensures forall p :: p in Eaten(s, finished).food ==> InArena(p)
  {
    UneatenExactly(s.food, s.head);
    forall p | p in Eaten(s, finished).food
      ensures InArena(p)
    {
      assert p in multiset(Eaten(s, finished).food);
    }
  }

  /** A frame from a valid state ends in a valid state. */
  lemma {:induction false} FrameKeepsValid(s: State, pressed: Option<Direction>, moveFinished: bool,
                                           eatFinished: bool, cell: Option<Position>)
    requires Valid(s)
    requires cell.Some? ==> InArena(cell.value)
    ensures Valid(NextFrame(s, pressed, moveFinished, eatFinished, cell))
  {
    var m := Moved(s, pressed, moveFinished);
    var e := Eaten(m, eatFinished);
    var g := Grown(e);
    MovedKeepsBand(s, pressed, moveFinished);
    assert g.gameOverSignals == m.gameOverSignals >= BoundarySignals(s);
    EatenKeepsFood(m, eatFinished);
    var r := Reset(g);
    if g.gameOverSignals > 0 {
      assert r == Initial.(lastTail := g.lastTail);
    } else {
      assert r == g && InArena(s.head);
      assert forall p :: p in g.segments ==> p in m.segments || Some(p) == m.lastTail;
    }
    assert Valid(r);
  }

  /**
   * From a state with no pending events, a frame panics exactly when
   * eating runs on a cell with food before any movement tick has recorded
   * a last tail cell.
   */
  lemma FramePanicsExactly(s: State, pressed: Option<Direction>, moveFinished: bool, eatFinished: bool)
    requires Quiescent(s)
    ensures FramePanics(s, pressed, moveFinished, eatFinished) <==>
      !moveFinished && eatFinished && s.lastTail.None? && s.head in s.food
  {
  }

  /**
   * The game resets exactly on leaving the arena, or on a movement tick that
   * runs the head into a segment; only the food spawned in the frame and the
   * last tail cell survive.
   */
  lemma {:induction false} FrameResets(s: State, pressed: Option<Direction>, moveFinished: bool,
                                       eatFinished: bool, cell: Option<Position>)
    requires OutOfArena(s.head) || (moveFinished && NewHead(s, pressed) in s.segments)
    ensures var t := NextFrame(s, pressed, moveFinished, eatFinished, cell);
      t == WithFood(Initial.(lastTail := t.lastTail), cell)
  {
    if moveFinished {
      MovedOnTick(s, pressed);
    }
  }

  /**
   * A frame where neither movement nor eating sees a finished timer, with
   * the head in the arena, changes nothing but the buffer and the food spawned.
   */
  lemma FrameOffTick(s: State, pressed: Option<Direction>, cell: Option<Position>)
    requires Quiescent(s) && InArena(s.head)
    ensures NextFrame(s, pressed, false, false, cell) ==
      s.(nextDirection := Buffered(s.direction, s.nextDirection, pressed),
         food := s.food + if cell.Some? then [cell.value] else [])
  {
  }

  /**
   * The frame in which the timer finishes, one frame before the move: the
   * head has not moved, the food on its cell is eaten, and if there was
   * any, one segment is added on the last tail cell, whichever frame
   * recorded it.
   */
  lemma {:induction false} FrameEatsInPlace(s: State, pressed: Option<Direction>, cell: Option<Position>)
    requires Quiescent(s) && InArena(s.head)
    requires !FramePanics(s, pressed, false, true)
    ensures var t := NextFrame(s, pressed, false, true, cell);
      t.head == s.head && t.direction == s.direction &&
      t.nextDirection == Buffered(s.direction, s.nextDirection, pressed) && t.lastTail == s.lastTail &&
      multiset(t.food) == multiset(s.food)[s.head := 0] + multiset(if cell.Some? then [cell.value] else []) &&
      t.segments == if s.head in s.food then s.segments + [s.lastTail.value] else s.segments
  {
    var m := Moved(s, pressed, false);
    var e := Eaten(m, true);
    MovedOffTick(s, pressed);
    UneatenExactly(s.food, s.head);
    assert e.food == Uneaten(s.food, s.head);
    assert (e.growthSignals > 0) == (s.head in s.food);
    assert Grown(e).gameOverSignals == 0;
  }

  /**
   * A movement tick inside the arena that does not run into a segment: the
   * head moves one cell along the committed heading and the body follows.
   * When this frame's tick has finished the timer again, the food on the
   * new cell is eaten, and if any was eaten one segment is added on the
   * cell the old tail left; otherwise the food stays for the next frame.
   */
  lemma {:induction false} FrameTick(s: State, pressed: Option<Direction>, eatFinished: bool, cell: Option<Position>)
    requires Quiescent(s) && InArena(s.head) && NewHead(s, pressed) !in s.segments
    ensures var t := NextFrame(s, pressed, true, eatFinished, cell);
      var spawned := if cell.Some? then [cell.value] else [];
      var n := |s.segments|;
      var tail := if n == 0 then s.head else s.segments[n - 1];
      var ate := eatFinished && NewHead(s, pressed) in s.food;
      t.head == NewHead(s, pressed) && t.direction == Turned(s, pressed) && t.nextDirection == None &&
      multiset(t.food) == (if eatFinished then multiset(s.food)[t.head := 0] else multiset(s.food)) + multiset(spawned) &&
      |t.segments| == (if ate then n + 1 else n) &&
      (forall i :: 0 <= i < n ==> t.segments[i] == if i == 0 then s.head else s.segments[i - 1]) &&
      (ate ==> t.segments[n] == tail) &&
      t.lastTail == Some(tail)
  {
    MovedOnTick(s, pressed);
    MovedFollows(s, pressed);
    var m := Moved(s, pressed, true);
    var e := Eaten(m, eatFinished);
    var g := Grown(e);
    assert m.gameOverSignals == 0 && m.growthSignals == 0 && m.food == s.food;
    EatenExactly(m, eatFinished);
    assert e.segments == m.segments && e.lastTail == m.lastTail && e.gameOverSignals == 0;
    assert (e.growthSignals > 0) == (eatFinished && m.head in s.food);
    assert Reset(g) == g;
  }

  /** A snake heading Right whose head has just left the arena on (10, 5), its tail last on (8, 5). */
  const StaleStart := State(Position(10, 5), Right, None, [Position(9, 5)], [], Some(Position(8, 5)), 0, 0)

  /** `StaleStart` is a state a frame can end in. */
  lemma StaleStartValid()
    ensures Valid(StaleStart)
  {
    assert StaleStart.segments == [Position(9, 5)];
  }

  /**
   * The last tail cell outlives a reset. The snake of `StaleStart` is out
   * of the arena and the spawner drops food on (3, 3) in the reset frame;
   * in the next frame the timer finishes, the new head eats that food
   * before it ever moves, and growth adds a segment on (8, 5), where the
   * tail was before the reset, away from the new snake.
   */
  lemma StaleTailAfterReset()
    ensures var s1 := NextFrame(StaleStart, None, false, false, Some(Position(3, 3)));
      var s2 := NextFrame(s1, None, false, true, None);
      s1 == Initial.(food := [Position(3, 3)], lastTail := Some(Position(8, 5))) &&
      s2.head == Position(3, 3) && s2.food == [] && s2.segments == [Position(3, 2), Position(8, 5)]
  {
    StaleTailResetFrame();
    StaleTailEatFrame();
  }

  /** The reset frame of `StaleTailAfterReset`: the startup state, with the old tail cell and the new food. */
  lemma StaleTailResetFrame()
    ensures NextFrame(StaleStart, None, false, false, Some(Position(3, 3)))
         == Initial.(food := [Position(3, 3)], lastTail := Some(Position(8, 5)))
  {
    var s0 := StaleStart;
    assert OutOfArena(s0.head);
    FrameResets(s0, None, false, false, Some(Position(3, 3)));
    MovedOffTick(s0, None);
  }

  /** The eating frame of `StaleTailAfterReset`: the food on (3, 3) is eaten and growth uses (8, 5). */
  lemma StaleTailEatFrame()
    ensures var t := NextFrame(Initial.(food := [Position(3, 3)], lastTail := Some(Position(8, 5))), None, false, true, None);
      t.head == Position(3, 3) && t.food == [] && t.segments == [Position(3, 2), Position(8, 5)]
  {
    StaleTailWaits();
    StaleTailEats();
    StaleTailGrows();
  }

  /** The new snake does not move in the eating frame. */
  lemma StaleTailWaits()
    ensures Moved(Initial.(food := [Position(3, 3)], lastTail := Some(Position(8, 5))), None, false)
         == Initial.(food := [Position(3, 3)], lastTail := Some(Position(8, 5)))
  {
  }

  /** The head eats the item on (3, 3) and sends one growth event. */
  lemma StaleTailEats()
    ensures Eaten(Initial.(food := [Position(3, 3)], lastTail := Some(Position(8, 5))), true)
         == State(Position(3, 3), Up, None, [Position(3, 2)], [], Some(Position(8, 5)), 0, 1)
  {
    assert Uneaten([Position(3, 3)], Position(3, 3)) == [];
  }

  /** Growth adds the segment on the old tail cell (8, 5). */
  lemma StaleTailGrows()
    ensures Grown(State(Position(3, 3), Up, None, [Position(3, 2)], [], Some(Position(8, 5)), 0, 1))
         == State(Position(3, 3), Up, None, [Position(3, 2), Position(8, 5)], [], Some(Position(8, 5)), 0, 0)
  {
  }
}
