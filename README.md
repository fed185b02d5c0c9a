# Snake game state, modelled in Dafny

This project models the game logic of a grid snake game that exists in two
versions: `snake_beta.py`, the early script, and `snake-version1.0.py`, which
adds a difficulty level, a pause key and food that expires. The playing field
is a 30 x 20 grid (a 600 x 400 window cut into 20-pixel cells) whose edges wrap.

The snake is an ordered list of cells, head first, with a target `length`, a
heading, a score and (in 1.0) a pause flag. A move puts a stepped head in
front and drops the tail once the body is longer than `length`. Eating raises
`length` and the score, and the food is re-drawn at random until it misses
the body. In 1.0 the food also carries a timer. The timer counts up once per
frame, and when it reaches the level's lifetime the food is re-drawn.

Modules:

- `Grid` (`grid.dfy`): the grid, cells, the four headings and the wrapping step.
- `Rules` (`rules.dfy`): the rules both scripts share word for word. These are
  how the body advances, the arrow-key rule that forbids reversing, and the
  re-roll loop that draws food cells until one is free.
- `SnakeV1` (`snake_v1.dfy`): `snake-version1.0.py`. The classes are `Snake`,
  `Food` and `Session`. `Session` holds the game-over flag, the key handling
  of `main_game` and one frame of play.
- `SnakeBeta` (`snake_beta.dfy`): `snake_beta.py`, with the same three classes.

The objects the scripts update in place are Dafny classes. `Snake` (in both
versions), `SnakeV1.Food` and both `Session`s carry a `Valid()` invariant:

- the body is never longer than `length` and stays on the grid;
- `length` is at least 3 and the score is never negative;
- in 1.0, the food is on the grid and `0 <= timer < max_timer`.

Every `Snake` and `Session` method keeps its class's invariant.
`SnakeV1.Food.Update` does not: the frame that uses up the lifetime leaves
`timer == max_timer`, and only the re-roll that `Session` performs right
after it restores `timer < max_timer`. `SnakeBeta.Food` holds only a
position and has no invariant of its own; `SnakeBeta.Session.Valid()` keeps
it on the grid.

The state-changing methods state their new state in terms of the old one.
The pure parts are functions with contracts, and lemmas connect them.

Randomness is an input. The food cells drawn inside a frame (the re-roll
loops) are taken in order from a caller-supplied stream `draws`, and `Tick`
reports how many cells it used. The first food of a game is the parameter
`foodDraw` of the `Session` constructors, and the food placed by R after a
game over in 1.0 is the parameter `restartFood` of
`SnakeV1.Session.HandleKey`. The random starting heading of `reset` is a
parameter too. A re-roll terminates only if the stream holds a free cell,
so `Tick` requires one when the frame will re-roll.

Where the on-screen texts differ from the code, the model follows the code:

- Food on the "easy" level expires after 300 frames
  (snake-version1.0.py:91-92, :355-360), although the menu text says it never
  disappears (snake-version1.0.py:155).
- Walls do not kill on the "hard" level, although the menu text says they do
  (snake-version1.0.py:163). `move` always wraps
  (snake-version1.0.py:56-57), so the wall test in `check_collision`
  (snake-version1.0.py:70-73) never sees an off-grid head
  (`Rules.RightEdgeWraps`, `SnakeV1.Snake.CheckCollision`).

Other facts about the code that the model states:

- The first food and the food after a restart are placed without a check
  against the snake (snake-version1.0.py:85, :246, :274). Only the two
  re-roll loops (snake-version1.0.py:350-352, :357-359) avoid the body.
- Eating and expiry are two independent tests (snake-version1.0.py:348,
  :356). After eating, the timer is set to 0 (:353) and then aged once in the
  same frame (:103-104), so it ends the frame at 1.
- The arrow rule compares a key with the current heading
  (snake-version1.0.py:335-342), and several keys can be handled between two
  moves. Two quick turns can therefore reverse the snake onto its own neck
  (`Rules.TurnsReverseOntoNeck`, `Rules.TwoTurnsInOneFrameReverse`).
- While a running game is paused, the game sits in the pause loop, which is
  entered only when the game is not over (snake-version1.0.py:286) and polls
  only P, SPACE and ESC (snake-version1.0.py:289-296); other keys have no
  effect there. After a game over, P only flips the flag (:283), and R and M
  still act (:272-279); `reset` clears the flag (:37).
- R after a game over in the beta script resets the snake only
  (snake_beta.py:75-77); the food stays where it was.

## Model

| member | source | states |
|---|---|---|
| `Grid.Center` | snake-version1.0.py:34 | A fresh snake starts on cell (15, 10), which is on the grid. |
| `Grid.Opposite` | snake-version1.0.py:335-342 | The reverse heading negates both components of the unit vector, and it is never the heading itself. |
| `Grid.Wrap` | snake-version1.0.py:56-57 | One coordinate plus a delta, reduced modulo the grid size, lies in [0, size). For an on-grid coordinate and a unit delta, it is the plain sum except at the two edges, where it wraps to the other side. |
| `Grid.Step` | snake-version1.0.py:54-58 | The new head is always on the grid. From an on-grid cell it is the neighbour in the heading, wrapping to column 0 or 29 and row 0 or 19 at the edges. |
| `Grid.StepRoundTrip` | snake-version1.0.py:56-57 | Stepping back in the opposite heading returns to the starting cell. |
| `Grid.StepMoves` | snake-version1.0.py:56-57 | A step always leaves the cell it starts from. |
| `Rules.Advance` | snake-version1.0.py:54-62 | After a move, the head is the stepped old head. The rest is the old body with at most its last cell dropped. The new length is the old length plus one, capped at `length`. The bound `len(positions) <= length` and being on the grid are both preserved. |
| `Rules.RightEdgeWraps` | snake-version1.0.py:56-73 | A head leaving column 29 to the right reappears in column 0 of the same row, on every level. So the hard level's off-grid test never fires after a move. |
| `Rules.CollidesAfterAdvance` | snake-version1.0.py:60-76 | After a move, the head meets another body cell exactly when it stepped onto a cell of the old body that the move keeps. The tail cell being dropped is safe to enter. |
| `Rules.Steer` | snake-version1.0.py:334-342 | An arrow key never sets the reverse of the current heading. Any other arrow sets its own heading, and the reverse arrow leaves the heading unchanged. |
| `Rules.TurnsReverseOntoNeck` | snake-version1.0.py:334-342 | For every heading, some two arrow keys handled between two moves set the reverse heading. A body whose head was stepped from its second cell then moves its head back onto that second cell, which the move keeps, so the snake bites itself. |
| `Rules.TwoTurnsInOneFrameReverse` | snake-version1.0.py:334-342 | Up then Left, pressed between two moves of a snake heading Right, set the reverse heading Left, and the next move puts the head on the body cell behind it. |
| `Rules.FirstFree` | snake-version1.0.py:350-352 | When some draw of the stream is off the body, the index of the first such draw exists and points at a draw off the body. |
| `Rules.FirstFreeIsFirst` | snake-version1.0.py:350-352 | No draw off the body comes before the one `FirstFree` picks. |
| `Rules.Reroll` | snake-version1.0.py:350-352 | The re-roll loop stops at the first draw off the body. It consumes exactly the draws up to that one, and it returns an on-grid cell when the draws are on the grid. |
| `SnakeV1.FoodValue` | snake-version1.0.py:40-48 | A food is worth 10, 15 or 20 points. Which level gets which value is fixed by `HarderPaysMoreAndExpiresSooner`. |
| `SnakeV1.MaxTimer` | snake-version1.0.py:89-96 | A food lives 300, 200 or 150 frames, a finite number on every level including easy. Which level gets which lifetime is fixed by `HarderPaysMoreAndExpiresSooner`. |
| `SnakeV1.HarderPaysMoreAndExpiresSooner` | snake-version1.0.py:40-96 | Harder levels pay strictly more per food and let food expire strictly sooner. With the value sets of `FoodValue` and `MaxTimer` this fixes the whole table: 10/15/20 points and 300/200/150 frames for easy/medium/hard. |
| `SnakeV1.FoodColor` | snake-version1.0.py:109-116 | The colour is red exactly while the timer is below 30% of the lifetime, and pale red exactly from 60% on (orange between). |
| `SnakeV1.FoodColorNeverFreshens` | snake-version1.0.py:109-116 | As the timer grows, the colour only moves from red towards pale red. |
| `SnakeV1.Snake.constructor` | snake-version1.0.py:28-30 | A new snake has the given level and is in its reset state. |
| `SnakeV1.Snake.Reset` | snake-version1.0.py:32-48 | Reset gives `length` 3, body `[(15, 10)]`, the given heading, score 0, not paused, and the level's food value. |
| `SnakeV1.Snake.Move` | snake-version1.0.py:50-62 | While paused the body is unchanged. Otherwise it advances one cell as `Rules.Advance` says, and the invariant (length bound, on the grid) is kept. |
| `SnakeV1.Snake.Grow` | snake-version1.0.py:64-66 | `length` rises by 1 and the score by the level's food value. The body is untouched. |
| `SnakeV1.Snake.CheckCollision` | snake-version1.0.py:68-76 | For an on-grid head, a collision is exactly the head occurring again among the other body cells. The hard-level wall test adds nothing there. |
| `SnakeV1.Snake.TogglePause` | snake-version1.0.py:78-80 | The pause flag flips, the new value is returned, and the snake's invariant is kept. |
| `SnakeV1.Food.constructor` | snake-version1.0.py:83-87 | A new food sits on the drawn cell, unchecked against the snake, with timer 0 and the level's lifetime. |
| `SnakeV1.Food.Update` | snake-version1.0.py:102-107 | The timer rises by one unless paused. The result says whether it has reached the lifetime. |
| `SnakeV1.Session.constructor` | snake-version1.0.py:245-246 | A new game has a reset snake, a food on the first draw, and is not over. |
| `SnakeV1.Session.HandleKey` | snake-version1.0.py:262-342 | ESC, or M after a game over, returns to the menu. R after a game over resets the snake, places a new unchecked food with timer 0 and clears game over. P or SPACE toggles the pause. An arrow turns the snake by `Rules.Steer` only while the game runs unpaused. Nothing else changes. |
| `SnakeV1.Session.EatIfOnFood` | snake-version1.0.py:347-353 | When the head is on the food, `length` rises by 1 and the score by the food value. The food moves to the first draw off the body and its timer restarts at 0. Otherwise nothing changes and no draw is used. |
| `SnakeV1.Session.ExpireIfStale` | snake-version1.0.py:355-360 | While paused, the timer stands still. Otherwise it rises by 1, and once it reaches the lifetime the food moves to the first draw off the body with timer 0. |
| `SnakeV1.Session.FeedAndAge` | snake-version1.0.py:347-360 | Eating and expiry are two independent tests. Food eaten in the frame ends it with timer 1 and does not expire. A moved food is never on the body, and `0 <= timer < max_timer` holds afterwards. |
| `SnakeV1.Session.Play` | snake-version1.0.py:345-364 | In a running game the body advances. On eating, `length` rises by 1, the score by the food value, the food moves to the first free draw and its timer ends at 1. On expiry without eating, the food moves to the first free draw with timer 0. Otherwise the timer rises by 1. A moved food is never on the body, `0 <= timer < max_timer` holds after the frame, and game over is set exactly when the new head meets the body. |
| `SnakeV1.Session.Tick` | snake-version1.0.py:344-364 | Over or paused: nothing changes and no draw is used. Otherwise the frame does exactly what `Play` states, so the invariant holds after every pass of the loop. |
| `SnakeBeta.Snake.constructor` | snake_beta.py:23-24 | A new snake is in its reset state. |
| `SnakeBeta.Snake.Reset` | snake_beta.py:26-30 | Reset gives `length` 3, body `[(15, 10)]`, the given heading and score 0. |
| `SnakeBeta.Snake.Move` | snake_beta.py:32-41 | The body advances one cell as `Rules.Advance` says, and the length bound and grid bounds are kept. |
| `SnakeBeta.Snake.Grow` | snake_beta.py:43-45 | `length` rises by 1 and the score by 10. The body is untouched. |
| `SnakeBeta.Snake.CheckCollision` | snake_beta.py:47-48 | A collision is exactly the head occurring again among the other body cells. |
| `SnakeBeta.Food.constructor` | snake_beta.py:51-52 | A new food sits on the drawn cell, unchecked against the snake. |
| `SnakeBeta.Session.constructor` | snake_beta.py:63-64 | A new game has a reset snake, a food on the first draw, and is not over. |
| `SnakeBeta.Session.HandleKey` | snake_beta.py:71-86 | R after a game over resets the snake, clears game over and keeps the food. While the game runs, an arrow turns the snake by `Rules.Steer`. Nothing else changes. |
| `SnakeBeta.Session.Tick` | snake_beta.py:88-100 | When over, nothing changes. Otherwise the body advances. On eating, `length` rises by 1, the score by 10, and the food moves to the first draw off the body; otherwise the food stays. Game over is set exactly when the new head meets the body. |

## Left out

- Drawing, fonts, the overlays, the grid lines, the difficulty menu's layout and `draw_button`. These are presentation with no game logic.
- Event polling itself, the QUIT event and the screen-switching loop in `main` that goes between menu and game. A game is modelled as a sequence of `HandleKey` and `Tick` calls.
- The nested pause loop: only its net effect is modelled. While a running game is paused (the pause loop, entered only when the game is not over, snake-version1.0.py:286), keys other than P, SPACE and ESC are dropped, and no frame is played. After a game over, P only flips the flag, and R and M still act.
- The order of keys around a pause. Keys fetched in the same batch as the pausing P, which the game handles after unpausing, are not modelled in that order. Keys fetched in the same poll of the pause loop as the unpausing P are dropped (snake-version1.0.py:289-294); in the model an arrow after `HandleKey(PauseKey)` turns the snake.
- `clock.tick` and the speed values (`FPS_EASY`, `FPS_MEDIUM`, `FPS_HARD`, `FPS`). These are timing, not state, so `Snake.speed` is not a field.
- `random.randint` and `random.choice`. They are modelled as the `draws` stream and the heading parameters, not as distributions.
- `Rules.Reroll`: it models the draw loop over a finite stream that must hold a free cell. A random generator that never yields a free cell, such as a snake filling the whole grid, is outside the model.
- The food timer bar, `int(200 * (1 - timer / max_timer))`, which is floating-point presentation.
- The food blink counter and its test. These are presentation state.
- `SnakeV1.FoodColor`: it compares exact ratios, where the game multiplies floats. For the lifetimes 150, 200 and 300 the products 0.3·m and 0.6·m are whole numbers, so the two agree on every integer timer.
