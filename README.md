# Falling-fruit game: a Dafny model of the game state

The game has a player paddle that moves left and right along the bottom of a
100×100 field, with fruit falling from the top. A game-loop tick moves every
fruit down one row. A fruit that leaves the field at the bottom scores one
point of survival while the game is still on. A fruit that falls past the
player's row within 8 columns of the player ends the game. Fruit spawns on a
timer whose interval shrinks by ten percent, down to 500 ms, each time the
score reaches a positive multiple of ten. Arrow keys move the player in
steps of 5 between columns 0 and 95. "Play again" resets the score, the
fruit, the spawn interval and game over.

The project has two modules:

- `GameRules` (`game_rules.dfy`) holds the pure part. It has the constants,
  the `Fruit` record, the collision test and the search for a colliding
  fruit. It also has the three steps of a tick as functions: `Fall` (the
  `map`), `Remaining` (the `filter`) and `Missed` (the points the filter
  awards). The rest is the effect of a key press, the fruit drawn from two
  random rolls, the spawn-interval update, and the lemmas about all of
  these.
- `FruitGame` (`game.dfy`) holds the class `Game`, with the component's
  five state fields (`playerPosition`, `fruits`, `isGameOver`, `score`,
  `spawnInterval`). A sixth field, `effectScore`, holds the score the
  score effect last ran with, which React keeps as the effect's dependency.
  Each event handler is a method that runs atomically on
  the current state. Every method keeps the invariant `Valid()`: the player
  is in `[0, 95]` on a multiple of 5, the spawn interval is in
  `[500, 2000]`, and every fruit is inside the field. Each method's
  `ensures` gives the new state as a function of the old one, using the
  functions of `GameRules`.

`Math.random()` becomes parameters: `CreateFruit` takes the two rolls, each
in `[0, 1)`. The fruit type is `FruitTypes[floor(typeRoll * 4)]` and the
column is `xRoll * 95`, as in the source. Columns are exact reals, not
JavaScript doubles.

Behaviour of the program that the model keeps as it is:

- Fruit keep falling and being dropped after game over; only the score
  stops (src/App.js:84-91).
- The spawn-interval update is an effect keyed on the score
  (src/App.js:55-59). It runs once for each new score value and looks only
  at that value. The class remembers the score it last ran with
  (`effectScore`), so a repeated call at an unchanged score does nothing.
  A tick that drops two fruit at once takes the score from 9 to 11 in one
  step, and the milestone at 10 then passes without a shrink
  (`DoubleDropSkipsMilestone`).
- The floor of the spawn interval is 500 (src/App.js:57).
- Movement is guarded, not clamped: a key press at a bound does nothing
  (src/App.js:35-39).
- The program has no facing direction, held-button repeat or high-score
  table, so none is modelled.

## Model

| member | source | states |
|---|---|---|
| `GameRules.Collides` | src/App.js:75-80 | A fruit hits exactly when its row is greater than 85 and its column lies strictly within 8 of the player's column. A fruit at row 85 or above never hits, whatever its column. |
| `GameRules.FindCollision` | src/App.js:97-99 | Returns None exactly when no fruit of the list hits the player. Otherwise it returns a fruit of the list that hits, and no earlier fruit hits (the first match, as `find` gives). |
| `GameRules.Fall` | src/App.js:84-88 | Same length as the input. Element i has the same column and type as input element i, and its row is one greater. |
| `GameRules.Remaining` | src/App.js:89-95 | No longer than the input, and every kept fruit has a row below 100. |
| `GameRules.Missed` | src/App.js:89-93 | The number of dropped fruit plus the number kept equals the length of the list. |
| `GameRules.FallAppend` | src/App.js:84-88 | Falling distributes over concatenation. |
| `GameRules.RemainingAppend` | src/App.js:89-95 | Filtering distributes over concatenation, so survivors keep their original relative order. |
| `GameRules.MissedAppend` | src/App.js:89-93 | The dropped count of a concatenation is the sum of the counts of its parts. |
| `GameRules.TickStep` | src/App.js:84-95 | Adding one fruit to the old list adds that fruit's outcome to the tick's result. The fruit, one row lower, is appended to the survivors when its new row is below 100. Otherwise it adds exactly one to the dropped count. |
| `GameRules.RemainingMembers` | src/App.js:89-95 | A fruit is among the survivors exactly when it was in the list and its row is below 100. |
| `GameRules.MissedNone` | src/App.js:89-93 | The dropped count is zero exactly when every fruit's row is below 100. |
| `GameRules.RemainingAllOnField` | src/App.js:89-95 | When every row is below 100, filtering returns the list unchanged. |
| `GameRules.TickSurvivorsOnField` | src/App.js:84-95 | Suppose every fruit is inside the field. Then after falling and filtering, every survivor is still inside the field and has a row of at least 1. |
| `GameRules.KeyMove` | src/App.js:34-41 | The player moves left exactly on "ArrowLeft" with a column above 0. It moves right exactly on "ArrowRight" with a column below 95. It moves by one step or not at all, and a valid column (0 to 95, a multiple of 5) stays valid. |
| `GameRules.KeyMovesStayOnTrack` | src/App.js:34-41 | Any sequence of key presses keeps a valid column valid. |
| `GameRules.KeyMovesFromStart` | src/App.js:27-41 | From the starting column 50, any sequence of key presses leaves the player in `[0, 95]` on a multiple of 5. |
| `GameRules.SpawnedFruit` | src/App.js:61-72 | A spawned fruit is at row 0 with a column in `[0, 95)`. |
| `GameRules.SpawnKindShare` | src/App.js:63-64 | Fruit type k is chosen exactly when the type roll lies in `[k/4, (k+1)/4)`, so each of the four types gets a quarter of the roll's range. |
| `GameRules.NextSpawnInterval` | src/App.js:55-59 | The interval changes only at a positive multiple of 10. It never grows and never drops below 500 when it started at or above 500. At a milestone it strictly shrinks when above the floor. It is exactly 0.9 times the old value when that is still at least 500, and exactly 500 when 0.9 times the old value is below 500. |
| `GameRules.SpawnIntervalBounded` | src/App.js:55-58 | Over any sequence of score changes, an interval that started at or above 500 stays between 500 and its starting value. |
| `GameRules.SpawnIntervalNoMilestone` | src/App.js:56 | Score changes that never hit a positive multiple of 10 leave the interval as it was. |
| `FruitGame.Game.constructor` | src/App.js:27-31 | The initial state is player at 50, no fruit, not game over, score 0, spawn interval 2000. The score effect counts as having run with score 0. |
| `FruitGame.Game.Tick` | src/App.js:82-106 | The fruit become the survivors of the old fruit after falling one row. The score grows by the number of dropped fruit, or stays unchanged if the game was already over. Game over becomes true exactly when it was true already or some survivor hits the player. The player, the spawn interval and the score the effect last ran with are unchanged. |
| `FruitGame.Game.CreateFruit` | src/App.js:61-73 | Nothing changes when the game is over. Otherwise exactly one spawned fruit is appended and the existing fruit are untouched. |
| `FruitGame.Game.HandleKeyPress` | src/App.js:34-41 | The player's column becomes the key move of its old column, and nothing else changes. |
| `FruitGame.Game.OnScoreChanged` | src/App.js:55-59 | When the score equals the one the effect last ran with, nothing changes. Otherwise the spawn interval becomes the next interval for the current score, and the current score is remembered. The interval never grows, and it stays within `[500, 2000]`. |
| `FruitGame.Game.Restart` | src/App.js:113-118 | Game over is cleared, the score becomes 0, the fruit list becomes empty and the spawn interval becomes 2000. The player position and the score the effect last ran with are unchanged, so the next run of the effect sees the reset score as new unless it last ran with 0. |
| `FruitGame.DoubleDropSkipsMilestone` | src/App.js:55-59 | Scenario: at score 9 with the effect last run at 9 and two fruit on row 99, a tick drops both, giving score 11 and no fruit. The score effect that follows leaves the spawn interval at 2000, so the milestone at 10 passes without a shrink. |

## Left out

- Rendering (the JSX, the game-over screen) and the image table: they only display the state.
- Timers and event wiring: `setInterval`/`clearInterval`, `addEventListener`/`removeEventListener`, and the effect dependency lists. Each handler is a method called atomically, so re-arming the timers when the position or the interval changes is not modelled.
- React's asynchronous state updates and stale closures. The source's tick reads `isGameOver` and `playerPosition` as captured at render time. Its key guard tests the captured position while the update applies to the latest one. The model runs every transition on the current state.
- Fruit columns are exact reals. The source computes `Math.random() * 95` and `Math.abs(fruit.x - playerPos)` in IEEE doubles, and their rounding is not modelled.
- `Math.random()` is replaced by the two roll parameters, and `console.log` is dropped (it is output only).
- `GameRules.NextSpawnInterval`: does not model IEEE double rounding of `interval * 0.9`. It uses exact reals. The monotonicity, the floor and the exact value 500 when clamped hold regardless of rounding; the value `interval * 0.9` above the floor is the exact real product.
- `FruitGame.Game.OnScoreChanged`: it is its own method and is not bundled into `Tick`. A caller runs it after each handler that may change the score, as React runs the effect after each render; a call at an unchanged score is a no-op.
