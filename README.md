# Snake game turn rules in Dafny

This project models the core of a browser Snake game (`js/main.js`). The game has a
10 by 10 grid, a snake whose body is a list of cells with the head first, one food
cell and a score. A turn takes one key. The four arrow keys each propose a new head
one cell away from the old one. The move is refused when that cell is a wall cell
or any cell of the current body, the tail included. A legal move that misses the
food slides the body. A legal move onto the food grows the body by one, places new
food on a free cell and adds one to the score. Keys reach the game from a keyboard
handler that passes on at most one key per press, and from a swipe classifier that
turns a touch gesture into an arrow key.

Modules:

- `Wrappers`: `Option`, standing for JavaScript's `null`/`undefined`.
- `Rules`: the pure turn rules. These cover cells, the key-to-step table, the wall
  and self-collision test, how the body moves, and the pigeonhole argument that a
  free cell is left for the food.
- `Game`: the `Board` class. It merges the game's `Snake`, `Food` and `Scoreboard`
  objects, and its `Move`, `GenerateFood` and `Step` methods update it in place.
  `ScanBody` is the single pass over the body that a turn makes. `StartGame` builds
  the opening position, and two small client methods (`OpeningMoves`, `LeftWall`)
  follow turns through the contracts.
- `Gesture`: the swipe classifier.
- `Input`: the keyboard handler as a class. It is specified by pure transition
  functions, and a lemma relates dispatched keys to key releases over any run of events.

The body is a `seq<(int, int)>`. The food search draws random cells until one misses
the body; here it is a nondeterministic choice of any grid cell off the body. That
choice needs a precondition saying such a cell exists. On a full board the original
recurses until the call stack overflows and throws, after the body has grown and
before the score is raised. The food is redrawn after `move`, against the snake's
current cells (js/main.js:327-334), so it avoids the post-move body, new head included.

## Model

| member | source | states |
|---|---|---|
| `Rules.Direction` | js/main.js:295-302 | Exactly the four arrow keys produce a step; every step is one cell along one axis: Up is (0,-1), Down (0,1), Left (-1,0), Right (1,0). |
| `Rules.DirectionTable` | js/main.js:299-302 | Different arrow keys give different steps. |
| `Rules.WallIffOffGrid` | js/main.js:314-319 | From a head inside the grid, a unit step hits the wall ring (x in {-1, columns} or y in {-1, rows}) exactly when it leaves the grid. |
| `Rules.Moved` | js/main.js:196-205 | The new head is the old head plus the step; the moved body is one longer after eating and the same length otherwise; each cell behind the new head is the cell one place ahead of it before. |
| `Rules.MovePreservesWellFormed` | js/main.js:308-327 | A move that is neither blocked by a wall nor by a body cell keeps the body non-empty, inside the grid and free of repeated cells. |
| `Rules.FoodStaysOffBody` | js/main.js:321-327 | A legal move that misses the food leaves food that was off the body still off it. |
| `Rules.FreeCellExists` | js/main.js:245-251 | Fewer distinct in-grid cells than the grid holds leave a free grid cell, so the food redraw can succeed. |
| `Rules.RelocationPossible` | js/main.js:327-334 | On a well-formed body with at least two free cells, a legal eat leaves a free cell for the new food. |
| `Game.ScanBody` | js/main.js:304-325 | After the scan, "unable to move" holds exactly when the candidate head is a body cell or a wall cell, and "eaten food" holds exactly when it is the food (for a non-empty body). |
| `Game.Board.Init` | js/main.js:269-273 | The board holds the given grid size, body, food and score. |
| `Game.Board.Move` | js/main.js:196-205 | The new body is the moved body: new head in front, tail dropped unless food was eaten. |
| `Game.Board.GenerateFood` | js/main.js:245-254 | The new food lies inside the grid and on no body cell. |
| `Game.Board.Step` | js/main.js:294-339 | An unknown key changes nothing. A blocked move changes nothing. A legal slide gives `[head + step] + body` minus its last cell, with food and score unchanged. A legal eat gives `[head + step] + body`, score plus one and food inside the grid off the new body. A valid board stays valid, including `score == |body|`. |
| `Game.StartGame` | js/main.js:345-366 | The opening board has a 10 by 10 grid, the six-cell body from (3,5) to (4,9), food at (2,4) and score 6, and it is valid. |
| `Gesture.ManageGesture` | js/main.js:45-75 | A swipe that keeps its x or y gives no key. Otherwise it gives Left or Right iff the x distance is at least the y distance (Left iff start.x > end.x), and Up or Down otherwise (Up iff start.y > end.y). |
| `Gesture.ReversedSwipe` | js/main.js:45-75 | Swiping from end to start gives no key exactly when the forward swipe gives none, and otherwise the opposite key. |
| `Input.InputHandler.constructor` | js/main.js:208-213 | A new handler holds no key and is not pressing. |
| `Input.InputHandler.HandleKeyDown` | js/main.js:215-221 | While pressing, a key-down is ignored: nothing goes to the game and the state is unchanged. Otherwise the key goes to the game and becomes the held key. |
| `Input.InputHandler.HandleKeyUp` | js/main.js:223-228 | A key-up releases the handler only when its key is the held key; any other key-up changes nothing. |
| `Input.DispatchBalance` | js/main.js:215-228 | Over any run of events, keys passed to the game and releases differ only by the change in whether a key is held. So at most one key is passed per release, plus one, and a held key is always recorded while pressing. |

## Left out

- Canvas set-up, resizing, viewport arithmetic and the checkerboard background (js/main.js:1-18, 78-150): these are screen geometry on fractional pixels.
- Drawing of the snake, food, score and game (js/main.js:156-194, 235-243, 260-266, 275-292): these only render. The redraw at the end of a turn is not modelled.
- Event listener registration and reading touch coordinates from events (js/main.js:32-43, 215, 223, 371-374): this is browser plumbing. Touch coordinates are modelled as integers, and the handler bodies are modelled as functions and methods.
- A gesture that yields no key is passed to the game as `undefined`; `Step` takes a string, and a missing key is treated as any unknown key.
- `Game.Board.GenerateFood`: the uniform random draw and its retry recursion are replaced by a choice of any free cell. Which free cell, and the distribution, are not modelled.
- `Game.Board.Step`: for a legal eat it requires a free cell after the move. On a full board the original's redraw recursion runs until the call stack overflows and throws, after the body has grown and before the score is raised (the key-down handler then also skips recording the key); that case is not modelled.
- The keyboard handler's callback is modelled as the key `HandleKeyDown` returns, not as a call into the game.
