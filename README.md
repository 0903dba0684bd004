# Snake simulation step, modelled in Dafny

This project models the simulation core of a browser snake game, `snake.js`.
It covers the snake's movement and growth, the keyboard steering of its head,
the placement of food by rejection sampling, and one tick of the world.

- **Geometry** (`geometry.dfy`): grid vectors (`Vec`), `Vec.add` as `Add`,
  and the `Food` item, which is just a position.
- **Snakes** (`snake.dfy`): the `Snake` class with the fields the source
  mutates in place:
  - `body` holds the segment positions, and `body[0]` is the snake's own
    position (its head);
  - `vel` is the head velocity;
  - `velocities` is the velocity history;
  - `stomach` holds swallowed food.
  `Update` follows the source step by step: digest, push a copy of `vel` to
  the front of the history, cut the history to the body's length, then a loop
  that moves segment `i` by history entry `i`. Each method is proved against a
  pure function on a `SnakeState` value (`Digested`, `Advanced`).
- **SnakeLaws** (`snake_laws.dfy`): what one update and many updates do to
  the body, the history and the stomach.
- **Steering** (`steering.dfy`): the key handler that `keyboardSetup`
  returns, and the anti-reversal rule it implements.
- **Placement** (`placement.dfy`): `getRandomPosition` and the rejection
  test of `_setFoodLocation`. The results of `Math.random()` are supplied as
  a sequence of draws.
- **Worlds** (`world.dfy`): the `World` class, with its constructor,
  `_setFoodLocation` (a `do…while` loop over the draws) and the simulation
  part of `update`.

`snake.js` has no self-collision, no border collision, no game-over state and
no reset. Segments do not copy each other's velocity. They follow the head
through a history of head velocities. A new food cell is rejected only when it
shares a row or a column with the head; the other segments are not checked.

## Model

| member | source | states |
|---|---|---|
| Geometry.Add | snake.js:32-35 | the translated point lies exactly `d` away from `p` (its inverse is `Sub`) |
| Snakes.Matches | snake.js:95-98 | the filter's result is empty exactly when no segment sits on `p`; it holds only copies of `p` and is no longer than the body |
| Snakes.MatchesCount | snake.js:95-98 | the filter holds exactly one entry per segment on `p`: its length is the number of occurrences of `p` in the body |
| Snakes.Digested | snake.js:93-102 | the oldest stomach item is appended to the body and removed from the stomach iff the stomach is non-empty and no segment is on its position; otherwise body and stomach are unchanged |
| Snakes.Spliced | snake.js:85 | `splice(n)` keeps exactly the first `min(n, length)` entries, unchanged |
| Snakes.Moved | snake.js:87-89 | every segment `i` is displaced by exactly `vs[i]` and no segment is added or lost |
| Snakes.Advanced | snake.js:81-91 | one update keeps one history entry per segment and a non-empty body; the body grows by at most one segment; segments plus stomach items stay constant; `vel` is untouched |
| Snakes.Snake.constructor | snake.js:72-78 | a new snake is one segment at `(x, y)` with zero velocity, a history holding that velocity, and an empty stomach |
| Snakes.Snake.Digest | snake.js:93-102 | `_digest` changes body and stomach exactly as `Digested` says and leaves `vel` and the history alone |
| Snakes.Snake.Update | snake.js:81-91 | the in-place update (unshift, splice, the `forEach` loop) yields exactly `Advanced` of the old state and keeps the invariant |
| Snakes.Snake.Swallow | snake.js:104-106 | the food goes to the back of the stomach; body, `vel` and history are unchanged |
| SnakeLaws.AdvanceShiftsHistory | snake.js:84-85 | after an update, history entry 0 is the head velocity and entry `i` is the old entry `i-1` |
| SnakeLaws.AdvanceMovesSegments | snake.js:84-89 | every old segment keeps its index and moves by exactly its new history entry; the head moves by `vel`; an appended segment starts at the food's frozen position and moves by the old tail's last velocity |
| SnakeLaws.AdvanceGrowsIff | snake.js:93-102 | the body grows in an update iff the stomach is non-empty and no segment is on its oldest item; the item then leaves the stomach, otherwise the stomach is unchanged |
| SnakeLaws.AdvancedN | snake.js:81-102 | over `n` updates the body never shrinks, grows by at most `n`, and segments plus stomach items stay constant |
| SnakeLaws.AdvanceFollowsPath | snake.js:84-89 | if every segment sits where its predecessor was before that predecessor's last move, an update keeps this, provided digested food lies where the tail was before its last move |
| Steering.Steered | snake.js:166-181 | an arrow key leaves the velocity on the key's axis only; it keeps a non-zero component on that axis and sets a zero one to the key's direction; it never turns the velocity into its reverse; other keys change nothing |
| Steering.KeysKeepUnitSteps | snake.js:163-186 | from rest or a unit step, any key sequence leaves a unit step or rest; once moving, or after any arrow key, always a unit step |
| Steering.OnKeyDown | snake.js:183-186 | the handler sets the entity's velocity to `Steered` of the old one and changes nothing else |
| Placement.Scaled | snake.js:117 | `Math.floor(r * max)` of a draw in [0, 1) lies in `[0, max)` |
| Placement.RandomPosition | snake.js:116-118 | a draw gives a cell of the grid |
| Placement.EveryCellCanBeDrawn | snake.js:116-118 | every grid cell is the outcome of some draw |
| Placement.ScaledCellInterval | snake.js:117 | every number in `[c / max, (c + 1) / max)` scales to index `c`, so each index is hit by an interval of draws of width `1 / max` |
| Placement.Placed | snake.js:129-134 | the placed cell is on the grid, off the head's row and off its column |
| Placement.PlacedIsFirstAccepted | snake.js:131-133 | the placed cell is the first draw not rejected; all earlier draws shared the head's row or column |
| Placement.AcceptedDrawExists | snake.js:131-133 | on a grid at least 2 by 2 some draw is accepted wherever the head is |
| Worlds.World.constructor | snake.js:121-127 | a new world has a standing one-segment snake in the middle of the grid and food at the first accepted draw |
| Worlds.World.SetFoodLocation | snake.js:129-135 | the `do…while` loop returns food at exactly the first accepted draw for the current head |
| Worlds.World.Update | snake.js:145-152 | the snake advances exactly once. If the moved head equals the food, that food is appended to the stomach, the body is untouched by the capture, and the food is replaced by a fresh placement around the moved head. Otherwise food and stomach are as the update left them. The world invariant holds after the tick |

## Left out

- `Timer` (snake.js:4-24): it is driven by the browser's animation frames and measures time in floating-point seconds, so it is not part of the game logic.
- `Matrix` and the painting at the start of `World.update` (snake.js:45-69, 138-144): this render buffer is only read by `draw`.
- `World.draw`, the canvas, the `keydown` wiring and the bootstrap (snake.js:1-2, 155-160, 190-200): these are I/O.
- `Math.random()` is a foreign, nondeterministic call. Its results are supplied as `Draw` values in [0, 1).
- Placement.Scaled: it multiplies `r * max` exactly, while JavaScript rounds the product to a double before `Math.floor`. No property of the model depends on that rounding.
- Worlds.World.SetFoodLocation: it requires that one of the supplied draws is accepted. The source keeps drawing until one is accepted. `AcceptedDrawExists` shows that on any grid at least 2 by 2 some draw is accepted wherever the head is, and `ScaledCellInterval` shows that each column index is hit by an interval of first draws of width `1 / xMax` and each row index by an interval of second draws of width `1 / yMax`, so an accepted cell is drawn with positive probability.
- Worlds.World.Update and Worlds.World.constructor: they carry the same assumption about the draws, needed only when food is placed.
- Worlds.World.constructor: it requires even grid sides. The source computes `xMax/2` with JavaScript division, so an odd side gives a fractional head position. Steering and updates add only integers to it, so the head stays fractional on that axis. That axis then never rejects a food draw, and the head never lands on the food, so food is never captured. Coordinates in the model are integers, and this behaviour is not modelled.
- The `deltaTime` arguments of `Snake.update` and `World.update` are ignored by the source and are not modelled.
- Object identity: `Vec` is a value. No position or velocity object is shared between two live entities. The one alias, `_velocities[0] === vel` right after construction, is dropped by the first update before anything reads it. `body` is modelled as the list of segment positions. The Snake object itself (index 0) and the swallowed `Food` objects are not kept as objects.
- JavaScript numbers are doubles. The model uses unbounded integers and does not model precision loss on huge coordinates.
- Collision detection, game over and reset are absent from `snake.js`, so there is nothing to model.
