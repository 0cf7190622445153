/**
 * The Snake rule set as one object. A `Game` holds what the engine kept as
 * components and resources: the head's cell, heading and buffered heading,
 * the body segments in the order the segment query visits them, the food
 * items, the last tail cell, and the game-over and growth events sent but
 * not yet read, and the movement timer's `finished` flag. Each engine
 * system is one method that updates these fields in place and is proved
 * to perform the transition `Rules` gives for it; `Frame` runs the game
 * systems in the order they are registered, with the timer's tick between
 * movement and eating.
 */
module Snek {
  import opened Wrappers
  import opened Grid
  import opened Steering
  import opened Body
  import opened Feeding
  import opened Rules

  class Game {
    var head: Position
    var direction: Direction
    var nextDirection: Option<Direction>
    var segments: seq<Position>
    var food: seq<Position>
    var lastTail: Option<Position>
    /** Game-over events sent and not yet read. */
    var gameOverSignals: nat
    /** Growth events sent and not yet read. */
    var growthSignals: nat
    /** `SnekMoveTimer`'s `finished` flag, as its last tick left it. */
    var moveTimerFinished: bool

    /** The fields as one state value. */
    function Model(): State
      reads this
    {
      State(head, direction, nextDirection, segments, food, lastTail, gameOverSignals, growthSignals)
    }

    /** The startup state, made by `game_setup`. */
    constructor ()
      ensures Model() == Initial && !moveTimerFinished
    {
      moveTimerFinished := false;
      food := [];
      lastTail := None;
      gameOverSignals, growthSignals := 0, 0;
      new;
      SpawnInitialSnake();
    }

    /** `spawn_initial_snake`. */
    method SpawnInitialSnake()
      modifies this
      ensures Model() == SpawnedSnake(old(Model())) && moveTimerFinished == old(moveTimerFinished)
    {
      segments := [Position(3, 2)];
      head := Position(3, 3);
      direction := Up;
      nextDirection := None;
    }

    /**
     * `snek_movement`: the boundary check and the key press every frame;
     * when the timer has finished, the committed heading, the head's step,
     * the body shift (swapping each segment's cell with the carried one)
     * and the last tail.
     */
    method Movement(pressed: Option<Direction>)
      modifies this
      ensures Model() == Moved(old(Model()), pressed, moveTimerFinished)
      ensures moveTimerFinished == old(moveTimerFinished)
    {
      ghost var s0 := Model();
      var finished := moveTimerFinished;
      if OutOfArena(head) {
        gameOverSignals := gameOverSignals + 1;
      }

      var current := direction;
      if pressed.Some? {
        var d := pressed.value;
        if d != current && d != Opposite(current) {
          nextDirection := Some(d);
        } else {
          nextDirection := None;
        }
      }
      ghost var buffered := Buffered(s0.direction, s0.nextDirection, pressed);
      assert nextDirection == buffered;
      assert gameOverSignals == s0.gameOverSignals + BoundarySignals(s0);
      assert Model() == Steered(s0, pressed);
      if finished {
        Advance();
      }
    }

    /**
     * The tick part of `snek_movement`: commit the buffered heading, step
     * the head, shift the body behind it and record the cell carried out.
     */
    method Advance()
      modifies this
      ensures Model() == Advanced(old(Model())) && moveTimerFinished == old(moveTimerFinished)
    {
      var lastPos := head;
      var dir := nextDirection.GetOr(direction);
      var pos := Step(head, dir);
      var body, carried, hits := ShiftSegments(segments, pos, lastPos);
      head, direction, nextDirection := pos, dir, None;
      segments, lastTail, gameOverSignals := body, Some(carried), gameOverSignals + hits;
    }

    /** `food_spawner`: `cell` is the cell drawn when its timer has finished, None otherwise. */
    method SpawnFood(cell: Option<Position>)
      requires cell.Some? ==> InArena(cell.value)
      modifies this
      ensures Model() == WithFood(old(Model()), cell) && moveTimerFinished == old(moveTimerFinished)
    {
      if cell.Some? {
        food := food + [cell.value];
      }
    }

    /** `snek_timer`: `finished` is what the tick with the frame's elapsed time reports. */
    method TickTimer(finished: bool)
      modifies this
      ensures Model() == old(Model()) && moveTimerFinished == finished
    {
      moveTimerFinished := finished;
    }

    /**
     * `snek_eating`: when the timer has finished, every food item on the
     * head's cell is removed and sends a growth event.
     */
    method Eat()
      modifies this
      ensures Model() == Eaten(old(Model()), moveTimerFinished) && moveTimerFinished == old(moveTimerFinished)
    {
      if !moveTimerFinished {
        return;
      }
      var kept := [];
      var eaten := 0;
      var i := 0;
      while i < |food|
        invariant 0 <= i <= |food|
        invariant kept == Uneaten(food[..i], head)
        invariant eaten == multiset(food[..i])[head]
      {
        assert food[..i + 1] == food[..i] + [food[i]];
        if food[i] == head {
          eaten := eaten + 1;
        } else {
          kept := kept + [food[i]];
        }
        i := i + 1;
      }
      assert food[..i] == food;
      food := kept;
      growthSignals := growthSignals + eaten;
    }

    /** `snek_growth`: `panicked` when the source's `unwrap` of the last tail cell fails. */
    method Grow() returns (panicked: bool)
      modifies this
      ensures panicked == GrowthPanics(old(Model()))
      ensures Model() == Grown(old(Model())) && moveTimerFinished == old(moveTimerFinished)
    {
      panicked := false;
      if growthSignals > 0 {
        growthSignals := 0;
        if lastTail.None? {
          panicked := true;
          return;
        }
        segments := segments + [lastTail.value];
      }
    }

    /** `game_over`: despawn every segment and every food item, then spawn the initial snake. */
    method GameOver()
      modifies this
      ensures Model() == Reset(old(Model())) && moveTimerFinished == old(moveTimerFinished)
    {
      if gameOverSignals > 0 {
        gameOverSignals := 0;
        while segments != []
          invariant food == old(food) && lastTail == old(lastTail) && moveTimerFinished == old(moveTimerFinished)
          invariant gameOverSignals == 0 && growthSignals == old(growthSignals)
          decreases |segments|
        {
          segments := segments[1..];
        }
        while food != []
          invariant segments == [] && lastTail == old(lastTail) && moveTimerFinished == old(moveTimerFinished)
          invariant gameOverSignals == 0 && growthSignals == old(growthSignals)
          decreases |food|
        {
          food := food[1..];
        }
        SpawnInitialSnake();
      }
    }

    /**
     * One frame, with the key press, what this frame's tick of the
     * movement timer reports and the food spawner's cell as inputs.
     * Movement reads the timer flag the previous frame's tick left;
     * `snek_timer`, registered after it, ticks; eating reads the new flag.
     * `food_spawner` is registered before the tick but only issues a spawn
     * command, applied with the stage's commands after `game_over`, so its
     * item is added last. Growth panics exactly as `Rules.FramePanics`
     * says, and a valid state stays valid with every event read.
     */
    method Frame(pressed: Option<Direction>, ticked: bool, cell: Option<Position>) returns (panicked: bool)
      requires Valid(Model())
      requires cell.Some? ==> InArena(cell.value)
      modifies this
      ensures Model() == NextFrame(old(Model()), pressed, old(moveTimerFinished), ticked, cell)
      ensures moveTimerFinished == ticked
      ensures panicked == FramePanics(old(Model()), pressed, old(moveTimerFinished), ticked)
      ensures Valid(Model()) && Quiescent(Model())
    {
      FrameKeepsValid(Model(), pressed, moveTimerFinished, ticked, cell);
      Movement(pressed);
      TickTimer(ticked);
      Eat();
      panicked := Grow();
      GameOver();
      SpawnFood(cell);
    }
  }
}
