# Snake game engine, modelled in Dafny

This project models the game engine of a terminal snake game (the `Game`
class of `src/main.py`). A snake is a list of `(row, col)` cells with the
head first. It moves one cell per tick on a `size_x` × `size_y` board. Apples
are a list of cells, and the score counts the apples eaten. The grid `data`
holds 0 (empty), 1 (body) or 2 (apple) per cell and is rebuilt from the snake
and the apples after every accepted move.

The project has two modules:

- `SnakeModel` (`snake_model.dfy`) works on values. It holds the `Movement`
  and `Color` enums, the direction offsets, the colour-name lookup, the
  constructor's size and colour defaults, and Python's `list.remove`. It
  also holds `Step`, the one-step rule of `Go`, as a function of the body,
  apples and score, and `CellValue`, the value `Update` stamps in a cell.
  The lemmas prove the rule's properties from these definitions.
- `SnakeGame` (`game.dfy`) is the `Game` class. It has the source's fields
  except `game_speed`, plus a `status` field that stands for the process
  exit of `Win` and `GameOver`. It has the source's methods except `Print`,
  plus `BodyContains` for the `any(...)` test of `Go`. The methods update
  the fields in place. `data` is an
  `array2<int>` that `Clear` allocates anew and `Update` writes cell by cell.
  `Go` builds the new body in a loop while `Grow` lengthens the list it
  walks, then copies the new body back index by index. `CheckIfApple`
  removes from the apple list while walking it. Each method is proved
  against the value-level definitions: `Go`'s new state is exactly `Step` of
  the old one, and `Clear` leaves every cell equal to `CellValue`.

Behaviour kept from the code:

- Swapped sizes: the constructor stores its `size_y` argument as `size_x`
  (the number of rows) and `size_x` as `size_y` (the number of columns).
  The bounds test of `Go` uses the rows for the first coordinate.
- The self-collision test compares the new head with the whole current
  body, tail included.
- New apples are placed on a cell that is 0 in the grid as last stamped, not
  in the current lists. At `Start` that is the constructor's all-zero grid,
  so the first three apples may land on the body or on one another.
- The win test is `len(player) >= size_x * size_y`. The win screen ends the
  process before `Clear`, so after a win the grid is left as it was.
- Eating keeps the tail: after the first meal on a 5 × 5 board the snake is
  `[(0,3),(0,2),(0,1),(0,0)]` (`FirstMeal`).
- When no cell is 0 the spawning loop retries for ever; there is no
  failure for a full board.
- Apples may lie on the body.

A consequence proved here (`StepNeverFillsBoard`, used by `MoveSnake`):
suppose the body has no repeated cell and is on the board. Then no accepted
move makes it as long as the board has cells. So `Won` is never reached
from such a state. In the code, a meal that would fill the board must first
place a new apple on a cell that was 0 before the move. No such cell is
left, so the random retry loop of `GenerateApple` never ends, and the win
test that follows is never reached.

## Model

| member | source | states |
|---|---|---|
| `SnakeModel.Delta` | src/main.py:184-188 | each movement is a unit step along exactly one axis |
| `SnakeModel.DeltaGeometry` | src/main.py:185-188 | RIGHT is (0,+1) along a row and LEFT undoes it; DOWN is (+1,0) along a column and UP undoes it; distinct movements give distinct offsets |
| `SnakeModel.ColorFromName` | src/main.py:40-50 | the colour lookup returns a colour exactly for the nine configurable names, named by that colour, never the apple or star glyph, and None for every other name |
| `SnakeModel.ColorNameRoundTrip` | src/main.py:23-50 | every configurable colour is found again under its own enum name |
| `SnakeModel.Dimensions` | src/main.py:63-67 | no sizes give 12 rows × 25 columns; two sizes are stored swapped (rows = the `size_y` argument); exactly one size leaves a dimension None |
| `SnakeModel.Validated` | src/main.py:87-93 | the resulting colours always differ; distinct colours are kept and equal ones become WHITE and GREEN |
| `SnakeModel.ConstructorColors` | src/main.py:69-79 | after defaulting and validation the constructor's colours differ; no arguments give WHITE on GREEN; two distinct arguments are kept |
| `SnakeModel.RemoveFirst` | src/main.py:143 | `list.remove` of a present cell shortens the list by one and takes exactly one copy of that cell out of the multiset |
| `SnakeModel.RemoveIsFirst` | src/main.py:143 | `list.remove` finds the first index holding the cell (none before it does) and returns the list without that one entry, every other cell kept in its order |
| `SnakeModel.RemoveDistinct` | src/main.py:140-143 | on a duplicate-free list the removed cell is gone and the rest stays duplicate-free |
| `SnakeModel.CollisionRejectsMove` | src/main.py:162-165 | a move is refused if and only if the new head is off the board or equal to some segment of the current body, tail included |
| `SnakeModel.PlainMoveShiftsBody` | src/main.py:160-173 | an accepted move onto a cell without an apple keeps the length, puts the new head first and moves each other segment to its predecessor's old cell; apples and score are unchanged |
| `SnakeModel.EatingGrows` | src/main.py:125-173 | an accepted move onto an apple adds one point, gives body `[head] + old body` (length + 1, tail kept), removes that apple and appends the spawned one, so the apple count is unchanged |
| `SnakeModel.StepKeepsBody` | src/main.py:163-173 | an accepted move keeps an in-bounds body in bounds and a duplicate-free body duplicate-free |
| `SnakeModel.StepKeepsApples` | src/main.py:139-146 | in-bounds, duplicate-free apples stay so when a meal's new apple is on the board and not already an apple |
| `SnakeModel.StepNeverFillsBoard` | src/main.py:189-194 | from a duplicate-free in-bounds body, with the spawned apple on a free cell, an accepted move leaves the body shorter than the number of cells, so the win test fails |
| `SnakeModel.FirstMeal` | src/main.py:160-173 | on a 5 × 5 board the starting snake moving right onto the apple at (0,3) becomes four segments long with score 1 and the spawned apple as the only apple |
| `SnakeGame.Game.constructor` | src/main.py:53-85 | sizes from `Dimensions`, colours from `Validated` of the defaults (so they differ), an all-zero grid of the board's shape, body `[(0,2),(0,1),(0,0)]`, no apples, score 0, movement RIGHT |
| `SnakeGame.Game.ValidateColors` | src/main.py:87-93 | the colours afterwards are `Validated` of those before, so they differ, and distinct colours are untouched |
| `SnakeGame.Game.Start` | src/main.py:94-98 | the three picked apples are appended and the grid is rebuilt to show exactly the body and the apples |
| `SnakeGame.Game.Clear` | src/main.py:112-116 | a fresh grid of the board's shape in which every cell equals `CellValue` of the body and apples |
| `SnakeGame.Game.Update` | src/main.py:117-124 | every apple cell becomes 2, every other body cell 1, and every other cell keeps its value |
| `SnakeGame.Game.Grow` | src/main.py:125-129 | the body gains a copy of its last segment |
| `SnakeGame.Game.BodyContains` | src/main.py:163 | true exactly when the cell is a segment of the body |
| `SnakeGame.Game.CheckIfApple` | src/main.py:130-146 | true exactly when the head is on an apple; then one point more and the apple list becomes `list.remove` of it plus the spawned apple; otherwise nothing changes |
| `SnakeGame.Game.Go` | src/main.py:147-175 | returns whether `Step` accepts the move; the body, apples and score become `Step`'s result when it does and stay unchanged when it does not |
| `SnakeGame.Game.MoveSnake` | src/main.py:176-190 | a refused move leaves the state and sets Lost; an accepted one applies `Step`, sets Won when the body covers at least the board's cells and otherwise stays Playing with a rebuilt grid; apples stay duplicate-free and a duplicate-free body stays so and never wins |
| `SnakeGame.Game.CheckIfWin` | src/main.py:191-194 | the status becomes Won exactly when the body length is at least rows × columns, and stays the same otherwise |
| `SnakeGame.Game.Win` | src/main.py:195-208 | the status becomes Won |
| `SnakeGame.Game.GameOver` | src/main.py:209-222 | the status becomes Lost |
| `SnakeGame.Game.GenerateApple` | src/main.py:235-248 | exactly `amount` apples are appended, in order, each on the board and 0 in the current grid |

## Left out

- The keyboard polling and the wall-clock tick loop of `Start` (src/main.py:100-111) are I/O and timing. So are the `game_speed` setting (a float) and the key-driven updates of `movement`. `Start` is modelled up to its first `Clear`, and each tick is one call of `MoveSnake` with the direction as a parameter.
- `Print` and the drawing in `Win` and `GameOver` (screen clearing, emoji output, `exit(0)`) are presentation only. `Win` and `GameOver` set the status to Won or Lost instead, and nothing is called after a win.
- `SetConfig` and the top-level program (src/main.py:250-266) read `config.ini`, which is file I/O. Only the `COLOR_MAPPING` lookup is modelled (`ColorFromName`).
- `random.randint` is not modelled. Each random cell is a parameter: `picks` for `GenerateApple` and `Start`, and `spawn` for a move that eats. The parameter stands for the first cell the retry loop accepts, so it must be on the board and 0 in the current grid.
- GenerateApple: requires one accepted cell per apple, so two source behaviours are outside the model. On a board with cells but none of them 0, the retry loop never ends. On a board with no rows or no columns, `random.randint(0, -1)` (src/main.py:243-244) raises a ValueError.
- SnakeGame.Game.CheckIfApple: assumes a duplicate-free apple list. The source removes from the list while walking it, and with repeated apples the walk skips entries and may eat several times; that behaviour is not modelled. `Go` and `MoveSnake` carry the same assumption, and `MoveSnake` proves that it is kept. `Start` can create repeated apples, because it checks its picks only against the all-zero grid of the constructor.
- SnakeGame.Game.constructor: requires both sizes or neither. With exactly one size given, the source stores None as a dimension and fails with a TypeError while building the grid.
- SnakeGame.Game.Clear: requires the body and the apples to be on the board. The source would fail with an IndexError otherwise; only the starting body can be off the board, and that happens on a board with no rows or with fewer than three columns. Negative sizes give an empty grid, as in the source.
- No grid coordinate is ever negative: the new head is checked at src/main.py:163, the starting cells are non-negative and `randint` draws from 0, so negative indexing of `data` never happens. The one negative index the code uses, `self.player[-1]` in `Grow` (src/main.py:128), is modelled as the last element, `player[|player| - 1]`.
