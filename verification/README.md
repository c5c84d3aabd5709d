# Snake game engine, modelled in Dafny

This project models the simulation core of a browser snake game
(`web/src/snake.ts`). A snake's body is a sequence of grid cells, oldest
first, so the last cell is the head. On every tick the engine does the
following, in order:

- it drains the buffered arrow-key inputs;
- it commits a facing direction;
- it moves the head one cell;
- it grows when the head reaches the food, and otherwise drops the oldest cell;
- it reports death on leaving the field or hitting the body.

Around the engine, the host keeps a one-bit `dead` gate, a score, and a reset
key.

Files and modules:

- `vectors.dfy`, module `Vectors`: integer cells (`Vec`), component-wise
  addition and the field-bounds test.
- `directions.dfy`, module `Directions`: the four directions. Each has a
  signed id (UP -1, DOWN 1, LEFT -2, RIGHT 2) and a unit vector. Also here:
  the id-based reversal test and an explicit reversal table it is proved
  equal to.
- `engine.dfy`, module `Engine`: `GameRules` and `GameState`, the food
  placement loop (`NewFood`), game construction (`NewGame`), the key-press
  queue push (`PushInput`), the queue drain (`Drain`) and the per-tick step
  (`Update`).
- `step_properties.dfy`, module `StepProperties`: lemmas about placement, the
  drain and the step.
- `host.dfy`, module `Host`: the session (engine state, `dead`, score), reset,
  arrow keys, the frame callback's death gate, and a session invariant kept
  by every sequence of events.

Modelling choices:

- `update` is a closure over the game, the rules and the score. Here it is the
  pure function `Update(rules, game, placed)`, which returns the new state, a
  `died` flag and an `ate` flag. The host adds one to the score when `ate`
  is set.
- `placed` is the cell that the food placement loop returns if it runs during
  this tick. It is an oracle parameter, and `Update` does not constrain it.
  The invariant lemmas only assume that the placed cell lies on the field.
  Every `NewFood` result on a field with cells does (`NewFoodIsFoodChoice`).
- `Math.random()` is modelled as a fraction `num/den` in [0, 1).
  `Math.floor(r * size)` is then exactly `(num * size) / den`: Dafny's
  division by a positive divisor rounds down.
- The placement do-while runs over a finite sequence of draws. `None` means
  that every supplied draw landed on the body, so the loop would still be
  retrying. The source gives no termination guarantee, and none is claimed.
- Coordinates are JavaScript numbers, but they only ever hold small
  integers, so they are modelled as `int`.
- `vec.ts` and `util.ts` are not part of this model. `Vec` equality and
  addition are taken to be component-wise.
- Queue entries and the facing are only ever the four direction constants.
  So the source's reference comparison `next == game.facing` is equality of
  the enumeration values.
- The functions are pure, so replaying the same events with the same draws
  gives the same sessions.

Behaviours of the code worth knowing:

- **Death changes the body.** The non-eating branch drops the oldest cell
  (web/src/snake.ts:121) before the collision return (web/src/snake.ts:129).
  So a dying step without food leaves the body one cell shorter
  (`DeathStepLength`, `BoundaryDeath`).
- **Food can land on the body.** The placement loop runs
  (web/src/snake.ts:118) before the new head is added (web/src/snake.ts:132).
  It can return the new head cell: one suitable draw makes it the result
  (`PlacementReachable`, `FoodMayLandOnHead`). Food under the oldest cell then
  kills the snake that reaches it (`EatingOntoOldestCellKills`), while an
  empty oldest cell can be entered safely (`VacatedCellIsFree`).
- **`update` has no death check.** The "no further mutation after death" rule
  comes from the host's `if (!dead)` gate (`Frame`, `DeadSessionFrozen`).
  Arrow keys still queue while dead, and reset discards that queue.

## Model

| member | source | states |
|---|---|---|
| Directions.Opposite | web/src/snake.ts:12-16 | the reversal of each direction is a different direction, with the negated id and the negated unit vector |
| Directions.ReversesIsOpposite | web/src/snake.ts:105 | the test `d.id == -facing.id` holds exactly when d is the 180-degree reversal of facing in the explicit table |
| Directions.IdsAndValuesDistinct | web/src/snake.ts:12-16 | two directions have the same id, or the same unit vector, only if they are the same direction |
| Directions.NeverSelfReverse | web/src/snake.ts:12-16 | no direction is its own reversal, since no id is zero |
| Engine.Floor | web/src/snake.ts:43-44 | the sampled coordinate is the floor of r times size: k <= r*size < k+1, and it lies in [0, size) for a positive size |
| Engine.NewFood | web/src/snake.ts:40-49 | a returned cell is not on the body and, on a field with cells, lies on the field; the loop is still retrying exactly when every supplied draw landed on the body |
| StepProperties.NewFoodFirstFree | web/src/snake.ts:42-46 | when draw k is the first drawn cell off the body, the loop returns exactly that cell |
| StepProperties.NewFoodIsFoodChoice | web/src/snake.ts:40-49 | on a field with cells, every cell the placement loop returns lies on the field and off the body at call time, so it meets the in-field assumption of the invariant lemmas |
| StepProperties.PlacementReachable | web/src/snake.ts:42-46 | every field cell off the body is returned by the placement loop for the draw x/width, y/height |
| Engine.NewGame | web/src/snake.ts:52-61 | a new game has the initial body and facing, an empty queue, no food and the rules' delay |
| Engine.PushInput | web/src/snake.ts:88-91 | a key press appends its direction at the end of the queue, with no validation, and changes nothing else |
| Engine.Drain | web/src/snake.ts:101-111 | entries equal to or reversing the facing are discarded; the first other entry is committed and everything after it stays queued in order; with no such entry the facing is kept and the queue ends empty; the result never reverses the facing |
| StepProperties.DrainAppend | web/src/snake.ts:101-111 | appending an entry never changes which queued entry the drain commits; the new entry only joins the deferred rest, or is judged alone when nothing earlier qualified |
| Engine.Update | web/src/snake.ts:100-135 | facing and queue are the drain's result; it eats iff the head plus the facing's vector equals the food, and the food then becomes the placed cell; it dies iff that cell is off the field or on the body after the tail step; on death the cell is not added, otherwise it becomes the new head |
| StepProperties.SurvivingStepLength | web/src/snake.ts:115-132 | a surviving step grows the body by one when eating and keeps its length otherwise; the new head is the old head plus the facing and lies on the field |
| StepProperties.DeathStepLength | web/src/snake.ts:117-130 | on death the body is the old body when eating, and the old body without its oldest cell otherwise |
| StepProperties.VacatedCellIsFree | web/src/snake.ts:121-126 | moving onto the cell the oldest segment leaves this tick, with no food there, is not a collision |
| StepProperties.EatingOntoOldestCellKills | web/src/snake.ts:117-126 | reaching food that lies on the oldest segment is a collision, since nothing is vacated when eating |
| StepProperties.FoodMayLandOnHead | web/src/snake.ts:117-132 | after an eating step that survives, the placement loop run at eating time returns the new head for a suitable draw, and then the food lies on the body |
| StepProperties.UpdateKeepsBody | web/src/snake.ts:124-132 | a body of distinct field cells stays so after any step, fatal or not |
| StepProperties.SurvivingStepAligns | web/src/snake.ts:113-132 | after a surviving step the head is the previous cell moved one step in the committed facing |
| StepProperties.NoReversalIntoNeck | web/src/snake.ts:105-115 | when the facing is aligned with the last move, the next cell is never the segment behind the head |
| StepProperties.ReversalRejected | web/src/snake.ts:101-111 | facing right with LEFT, UP queued commits UP and leaves nothing queued |
| StepProperties.BufferedDeferral | web/src/snake.ts:101-111 | facing right with UP, DOWN queued commits UP and keeps DOWN queued |
| StepProperties.BoundaryDeath | web/src/snake.ts:121-129 | a head on the right edge moving right dies without eating, and the body has lost its oldest cell |
| Host.Reset | web/src/snake.ts:92-98 | reset gives a live session with score zero, the initial body and facing, an empty queue, the placed food and the 200 ms start delay |
| Host.Press | web/src/snake.ts:88-91 | an arrow key queues its direction whether or not the snake is dead, and changes nothing else |
| Host.Frame | web/src/snake.ts:152-157 | a dead session, or a frame that is not due, changes nothing; otherwise the engine steps, `dead` takes the died flag, and the score rises by one exactly when the head reached the food |
| Host.SnakeRulesValid | web/src/snake.ts:66-73 | the game's own configuration has a positive field and a distinct, in-field, aligned initial body |
| Host.ResetEstablishesInv | web/src/snake.ts:92-98 | a reset with an in-field placement starts a session that satisfies the invariant |
| Host.PressPreservesInv | web/src/snake.ts:88-91 | key presses keep the invariant |
| Host.FramePreservesInv | web/src/snake.ts:152-157 | frames keep the invariant: body length plus the dead bit equals the initial length plus the score, the body is distinct and on the field, and a living snake has a body, food and an aligned facing |
| Host.Apply | web/src/snake.ts:88-98 | any single arrow key, due or idle frame, or reset with an in-field placement keeps the invariant |
| Host.Run | web/src/snake.ts:148-158 | every sequence of key presses, frames and resets keeps the invariant, so the score is never negative |
| Host.DeadSessionFrozen | web/src/snake.ts:152-157 | once dead, any number of frames leaves the session unchanged |

## Left out

- Keyboard capture (`web/src/input.ts`): the global key listeners are replaced by the `Press` and `Restart` events.
- Build configuration (`web/vue.config.js`): it contains no logic.
- Canvas sizing and drawing (web/src/snake.ts:75-81, 137-144, 160-168): rendering only.
- Frame scheduling and the floating-point delay accumulator (web/src/snake.ts:146-157, 170). The frame's `due` flag stands for "the accumulator dropped below zero". The delay is copied by `NewGame` and set by `Reset`, but never decremented.
- `Math.random` itself: its draws are inputs. The rounding of `Math.random() * size` in floating point is not modelled.
- The Vue `Ref` for the score and the `console.log` calls: the score is a plain integer in the session.
- Engine.NewFood: termination is not modelled. The loop is run over a finite sequence of draws, because the source retries without bound.
- Host.Run: it only accepts placements that lie on the field. The frame and reset events take the placed cell as an input and do not derive it from the session's current body.
