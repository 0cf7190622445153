# Snek rule set in Dafny

A model of the game rules of `snek`, a Snake game written in Rust on the
Bevy engine. The engine is taken out: what is left is a small state
machine over integer grid cells.

- `grid.dfy` (module `Grid`): the 10 x 10 arena, `Position`, `Direction`
  with `Opposite`, the one-cell `Step`, and the game-over boundary test as
  the source writes it.
- `steering.dfy` (module `Steering`): how a key press is buffered in the
  head's `next_direction` and committed on a tick.
- `body.dfy` (module `Body`): the body shift of a movement tick, as a
  specification function `Shift` and as the loop `ShiftSegments` that
  swaps each segment's cell with the carried `last_pos`.
- `feeding.dfy` (module `Feeding`): which food a head on a cell leaves.
- `rules.dfy` (module `Rules`): the whole game state as a value and one
  transition function per engine system (`Moved`, `WithFood`, `Eaten`,
  `Grown`, `Reset`) and per frame (`NextFrame`), with the lemmas that
  state what each promises.
- `snek.dfy` (module `Snek`): class `Game`, whose fields are the head's
  cell, heading and buffered heading, the segment cells, the food cells,
  `LastTailPosition`, the counts of game-over and growth events sent and
  not yet read, and the movement timer's `finished` flag. Each system is
  a method that updates the fields in place and is proved to perform its
  `Rules` transition; `Frame` runs them one after the other.

Inputs that came from the engine are parameters: the key press as an
optional direction, what the movement timer's tick reports in each frame,
and the cell the food spawner drew (absent when its timer has not
finished).

A frame follows the order in which `main` registers the systems
(src/main.rs:346-353). `snek_timer` is registered between `snek_movement`
and `snek_eating`, so movement reads the `finished` flag left by the
previous frame's tick and eating reads the flag of this frame's tick:
`Rules.NextFrame` takes both. `food_spawner` is registered before the tick
but only issues a spawn command, and Bevy applies commands at the end of
the stage, after `game_over`. So the item it spawns is added last: eating
in the same frame does not see it, and a reset in the same frame does not
remove it.

The body is the sequence of segment cells in the order the segment query
visits it. The `SnekSegments` vector of entity handles is not modelled:
the movement loop never reads it, and growth and reset change it exactly
as they change the sequence of cells.

Events are counts. A Bevy `EventReader` marks every pending event as read
when `iter` is called, so `game_over` and `snek_growth`, which only ask
whether there is a first event, consume all pending events and act once.

Coordinates are `i32` in the source and `int` here. `Rules.Valid` keeps
every snake cell within one step of the arena between frames
(`Rules.FrameKeepsValid`), so coordinates stay in [-2, 11] even inside a
frame and the `i32` operations can never overflow. The boundary test's
`as u32` casts are applied only to non-negative values, so they change
nothing.

Five behaviours of the code are kept as written:
- Eating runs in the frame in which the movement timer finishes, one
  frame before the move that timer causes. The head eats the food on the
  cell it has waited on for a timer period, not the cell it is about to
  enter (`Rules.FrameEatsInPlace`). The food on the cell just entered is
  eaten at the timer's next finish, before the next move
  (`Rules.FrameEatsInPlace`); when that finish falls in the move's own
  frame, it is eaten in that frame (`Rules.FrameTick`).
- A reset does not touch `LastTailPosition`, so the state after a reset
  equals the startup state except for that cell (`Rules.ResetIsStartup`).
  Growth can read the stale cell. Suppose the food spawner drops food on
  (3, 3) in the reset frame or in the short wait before the first move.
  Then the new snake eats it on the timer-finish frame, before it ever
  moves, and growth adds a segment on the cell the old tail last left,
  away from the new snake (`Rules.StaleTailAfterReset`). Before the first
  move of the whole game no cell has been recorded, and the same case
  would make growth's `unwrap` panic (`Rules.FramePanicsExactly`). With the
  source's periods it cannot arise: both timers start together and tick
  by the same elapsed time each frame, so the 250 ms movement timer
  finishes no later than the 1000 ms food timer, and the first food item
  is seen one frame after it is spawned, by which time the first move
  has recorded a cell.
- Several growth events read in one frame (two food items on one cell)
  add ONE segment, not one per event (`Rules.GrownByOne`).
- The boundary test compares y with `ARENA_WIDTH`. Both constants are 10,
  so the test is the same as comparing with `ARENA_HEIGHT`
  (`Grid.OutOfArena`).
- A segment already on the head's new cell keeps its cell and does not
  take the carried one. The following segments still take it, so the body
  can split; the game-over event resets the game in the same frame.

## Model

| member | source | states |
|---|---|---|
| Grid.Opposite | src/main.rs:86-95 | the opposite heading is never the heading itself and lies on the same axis (Left/Right, Up/Down) |
| Grid.OppositeInvolution | src/main.rs:86-95 | the opposite of the opposite is the heading itself |
| Grid.OppositePairs | src/main.rs:86-95 | two headings are opposite exactly when they are Left and Right or Up and Down |
| Grid.Step | src/main.rs:179-184 | a step reaches a neighbouring cell (distance 1, no diagonal), on the same row exactly for Left/Right, and further right or up exactly for Right/Up |
| Grid.OutOfArena | src/main.rs:162 | the game-over test, with y compared against the width, holds exactly for cells outside the 10 x 10 arena |
| Grid.StepFromArena | src/main.rs:179-184 | one step from a cell of the arena lands at most one cell outside it |
| Steering.Buffered | src/main.rs:166-173 | a pressed turn is buffered, a press straight on or straight back clears the buffer, no press leaves it unchanged |
| Steering.BufferedConsistent | src/main.rs:166-173 | buffering keeps the invariant that the buffer holds only a turn from the current heading |
| Steering.Committed | src/main.rs:177 | the committed heading is the buffered one if present, otherwise the current one, and so never straight back while the buffer holds a turn |
| Steering.NoReversal | src/main.rs:166-178 | under that invariant the heading committed on a tick is never the opposite of the previous heading, whatever is pressed |
| Body.Shift | src/main.rs:185-194 | the shift keeps the number of segments; its behaviour is stated by the three lemmas below |
| Body.ShiftFollows | src/main.rs:185-194 | with no segment on the head's new cell: segment 0 takes the carried cell, segment i the old cell of segment i-1, the old last cell (or the carried cell if there are no segments) comes out, and nothing collides |
| Body.ShiftCollides | src/main.rs:185-194 | each segment on the head's new cell counts one collision and keeps its cell |
| Body.ShiftWithin | src/main.rs:185-194 | every cell the shift yields was a segment's cell or the carried one |
| Body.ShiftSegments | src/main.rs:185-193 | the swapping loop produces exactly the shifted body, the carried-out cell and the collision count of `Shift` |
| Feeding.Uneaten | src/main.rs:301-307 | eating never adds food |
| Feeding.UneatenExactly | src/main.rs:301-307 | the food left has no item on the head's cell and every other cell keeps all its items |
| Feeding.UneatenCount | src/main.rs:301-307 | the items removed are exactly the items that lay on the head's cell |
| Rules.SpawnedSnake | src/main.rs:223-247 | the snake spawned is the startup snake (one segment at (3,2), head at (3,3) heading Up, nothing buffered), with food, last tail and events kept |
| Rules.Turned | src/main.rs:177 | the heading committed after this frame's press is never straight back while the buffer holds a turn; `MovedOnTick` states its use |
| Rules.NewHead | src/main.rs:179-184 | the head's cell after a tick is a neighbouring cell of the old one; `MovedOnTick` states its use |
| Rules.BoundarySignals | src/main.rs:161-164 | at most one boundary event, sent exactly when the head is outside the arena |
| Rules.Moved | src/main.rs:141-197 | movement never touches food or growth events, keeps the number of segments, moves the head exactly one cell when the timer has finished and none otherwise, and sends at least the boundary event; the exact behaviour is stated by `MovedOffTick`, `MovedOnTick` and `MovedFollows` |
| Rules.Steered | src/main.rs:160-173 | the every-frame part of movement changes only the buffer and the game-over events, keeps the buffer a turn (and after any press leaves it a turn or empty), and sends exactly one event when the head is outside the arena; `MovedOffTick` states the whole off-tick step |
| Rules.Advanced | src/main.rs:175-194 | the tick part of movement moves the head to a neighbouring cell, empties the buffer, records a last tail cell, keeps the body's length, food and growth events, and sends one game-over event per segment on the new head cell; `MovedOnTick` and `MovedFollows` state the rest |
| Rules.WithFood | src/main.rs:249-269 | spawning changes only the food; with no cell drawn nothing changes, and with a cell drawn exactly one item on that cell is added after the items already there |
| Rules.Eaten | src/main.rs:291-309 | eating changes only the food and the growth events, and sends exactly one event per item removed; which items go is stated by `EatenExactly` |
| Rules.Grown | src/main.rs:311-326 | growth reads every pending event, changes only the body, keeps its segments in order and adds at most one; `GrownByOne` states which |
| Rules.Reset | src/main.rs:199-221 | the reset reads every game-over event, never touches the last tail cell or the growth events, and with no event pending changes nothing; `ResetIsStartup` states the reset state |
| Rules.NextFrame | src/main.rs:346-353 | after a frame every event sent in it has been read, and a last tail cell is recorded exactly when one was before or movement ran a tick; the frame lemmas below state the rest |
| Rules.MovedOffTick | src/main.rs:160-176 | with the timer not finished the head, heading, body, last tail and food are unchanged; only the buffer changes, and exactly one game-over event is sent when the head is outside the arena, none otherwise |
| Rules.MovedOnTick | src/main.rs:160-194 | on a tick the committed heading is the buffered one or else the old one, the buffer is cleared, the head moves one cell along it, the body keeps its length, segments on the new cell stay, and the game-over events are the boundary event plus one per such segment |
| Rules.MovedFollows | src/main.rs:185-194 | on a tick with no segment on the new head cell, each segment takes its predecessor's old cell and the last tail is the old last segment's cell (the old head's with no segments) |
| Rules.TickNeverReverses | src/main.rs:166-178 | a tick never turns a valid snake straight back |
| Rules.EatenExactly | src/main.rs:298-308 | with the timer finished exactly the food on the head's cell is removed with one growth event per item; otherwise nothing changes |
| Rules.GrownByOne | src/main.rs:319-325 | when growth events are pending exactly one segment is appended at the last tail cell and the events are consumed; otherwise the body is unchanged |
| Rules.ResetIsStartup | src/main.rs:209-247 | with a game-over event pending the state becomes the startup state (one segment at (3,2), head at (3,3), heading Up, no buffer, no food, events read), keeping only the last tail cell and the growth events |
| Rules.InitialValid | src/main.rs:228-246 | the startup state satisfies the invariant and has no pending events |
| Rules.MovedKeepsBand | src/main.rs:160-195 | movement keeps the buffer a turn and the last tail near the arena, and from inside the arena keeps the head and body within one cell of it |
| Rules.EatenKeepsFood | src/main.rs:301-307 | eating leaves only food that lies in the arena |
| Rules.FrameKeepsValid | src/main.rs:346-353 | a frame from a valid state ends in a valid state, whatever the timer flags, the press and the drawn cell |
| Rules.FramePanicsExactly | src/main.rs:291-326 | with no pending events a frame panics in growth exactly when eating runs on food on the head's cell while movement has not run a tick and no last tail cell was ever recorded |
| Rules.FrameResets | src/main.rs:160-221 | a frame that starts with the head outside the arena, or whose movement tick runs the head into a segment, ends in the startup state except for the last tail cell and the food spawned in that frame |
| Rules.FrameOffTick | src/main.rs:160-309 | a frame in which neither movement nor eating sees a finished timer, with the head in the arena, changes only the buffer and adds the spawned food |
| Rules.FrameEatsInPlace | src/main.rs:291-326 | in the frame the timer finishes, before the move, the head stays, the food on its cell is eaten, and if there was any one segment is added on the recorded last tail cell |
| Rules.FrameTick | src/main.rs:160-326 | a movement tick in the arena that hits no segment moves the head one cell along the committed heading and makes the body follow; if this frame's tick finishes the timer again the food on the new cell is eaten and, if any, one segment is appended on the cell the old tail left; food spawned in the frame is not eaten |
| Rules.StaleStartValid | src/main.rs:160-197 | the start state of the stale-tail run, a snake whose head has just left the arena, satisfies the invariant kept between frames |
| Rules.StaleTailAfterReset | src/main.rs:199-326 | after a snake leaves the arena and the spawner drops food on (3,3) in the reset frame, the next timer-finish frame adds a segment on the pre-reset tail cell (8,5), apart from the new snake |
| Snek.Game.constructor | src/main.rs:109-115 | the game starts in the startup state with the movement timer not finished |
| Snek.Game.SpawnInitialSnake | src/main.rs:223-247 | one segment at (3,2) and the head at (3,3) heading Up with nothing buffered; food, last tail, events and timer untouched |
| Snek.Game.Movement | src/main.rs:141-197 | the fields after the movement system are exactly `Rules.Moved` of the fields before, with the timer flag as the last tick left it |
| Snek.Game.Advance | src/main.rs:175-194 | the tick part of movement performs exactly `Rules.Advanced` |
| Snek.Game.SpawnFood | src/main.rs:249-269 | a food item is appended on the drawn cell of the arena when the spawner's timer has finished; nothing else changes |
| Snek.Game.TickTimer | src/main.rs:271-273 | the tick sets the timer flag and changes nothing else |
| Snek.Game.Eat | src/main.rs:291-309 | the fields after the eating system are exactly `Rules.Eaten` of the fields before, with the timer flag as this frame's tick left it |
| Snek.Game.Grow | src/main.rs:311-326 | the fields after the growth system are exactly `Rules.Grown` of the fields before, and it panics exactly when an event is pending and no last tail was ever recorded |
| Snek.Game.GameOver | src/main.rs:199-221 | the fields after the game-over system are exactly `Rules.Reset` of the fields before |
| Snek.Game.Frame | src/main.rs:346-353 | one frame performs `Rules.NextFrame` with the previous tick's flag for movement and this tick's for eating, leaves this tick's flag, panics exactly as `Rules.FramePanics` says, and keeps the invariant with every event read |

## Left out

- Rendering: `setup`, `main`'s window and colour set-up, materials, sprites, `Size`, `size_scaling` and `position_translation` are floating-point screen arithmetic with no game rule in them.
- Timers: `Timer::tick` with the frame's elapsed seconds is engine arithmetic on floats. The movement timer is a `finished` flag that each frame's tick sets as the caller says; the food timer is the presence of a drawn cell, so at most one food item is spawned per frame, as a repeating Bevy timer reports `finished` once per tick. The periods (250 ms and 1000 ms) and the shared elapsed time that tie the two timers together are not modelled, so the flags and the cell are free inputs; this is why `Rules.FramePanicsExactly` admits a startup panic that the periods rule out.
- Random food placement: the source scales `random::<f32>()` by the arena size and truncates; the model takes the drawn cell as a parameter and requires only that it lies in the arena. Nothing checks whether the cell is free, as in the source.
- Several pressed keys: which one `get_pressed().next()` yields depends on the engine's key set, so the press is an optional direction.
- Entities and commands: Bevy applies spawns and despawns at the end of the stage. The model applies the food spawner's spawn there, after `game_over`, and every other command at once. Eating's despawns and `game_over`'s own despawns and spawns are read by no later system in the frame, so applying them at once changes nothing but the double despawn of an item eaten in a game-over frame, which is engine behaviour.
- Several heads: reachable states have exactly one head, so the head query's loops run once.
- Snek.Game.Frame: when eating and a game over happen in the same frame (the timer finishing in two frames running and the head entering a segment, say), the source's deferred spawn of the grown segment is applied after `game_over` has chosen what to despawn, so that segment survives the reset, on the last tail cell; the model's reset removes it. `Rules.NextFrame` and `Rules.FrameResets` state the model's behaviour.
- Rules.NextFrame: a segment grown in a frame that also resets is removed by the reset, whereas in the source its deferred spawn survives the reset, on the last tail cell.
- Rules.FrameResets: in a frame whose movement tick runs the head into a segment and whose eating finds food there, the lemma's startup state omits the grown segment that the source's deferred spawn keeps.
- Scheduling: the frame takes `main`'s registration order as the order in which the systems run; how Bevy's executor may run systems that share no data in parallel is not modelled.
- Snek.Game.Grow: the panic of `unwrap` is a `panicked` result with the state left as if the events had been read; what the process does after a panic is not modelled.
