# Crossword board and clue panel — a Dafny model

This project models the puzzle bookkeeping of a small browser crossword game
and the drag logic of its clue panel, and proves properties of both.

- **Level data** (`Levels`): words with a zero-based start and a direction
  (across or down), intersections with an ordered list of clue images, and the
  shipped level 1 ("ship" across from (0,0), "package" down from (3,0)).
- **Cell keys** (`Keys`): the board keys cells by the 1-based string
  `"row-col"` and reads them back with `split("-").map(Number)`. The model keys
  cells by the pair `Key(row, col)` and proves the string codec round-trips,
  that it is injective, and that `getNextCellKey` on strings is the formatted
  `NextKey` on pairs.
- **Grid builder** (`Grid`): `calculateGridSize` (a loop widening maxX/maxY)
  against the specification `GridSize`, and the initialising effect (a cursor
  walking each word, writing `{letter, guess: "", direction}`) against the
  specification `Build`. Later words overwrite earlier ones at shared cells.
- **Board** (`Board`): the class `GameBoard` holds the guesses, the active-word
  anchor, the focused cell, the completion flag and the selected clues. Its
  methods are the focus handler, the keystroke handler (guess update,
  completion recheck, auto-advance), the clue-marker click, level selection and
  the grid render. The active word is a ray from the anchor, unbounded by word
  length, as in the source.
- **Clue panel** (`Panel`): a class with `isDragging`, `position` and the
  recorded `offset`, and the handlers for press, move and release.

## Model

| member | source | states |
|---|---|---|
| `Keys.ParseFormatRoundTrip` | src/GameBoardCopy.js:98-99 | `split("-").map(Number)` applied to a key formatted as `${y}-${x}` gives back exactly `[y, x]`, for every row and column as natural numbers (see "## Left out" for the limits of JavaScript numbers) |
| `Keys.FormatKeyInjective` | src/GameBoardCopy.js:39-40 | two cells get the same string key if and only if they have the same row and column, so keying the map by strings loses nothing |
| `Keys.GetNextCellKeyFormat` | src/GameBoardCopy.js:118-127 | `getNextCellKey` on a formatted key gives the formatted key of the next cell: column+1 when across, row+1 otherwise |
| `Keys.NextKey` | src/GameBoardCopy.js:118-127 | the next cell is exactly one step away; it stays on the same row exactly when the direction is across and on the same column exactly when it is not, so it is one column right or one row down |
| `Keys.FormatKey` | src/GameBoardCopy.js:39 | the key string `${y}-${x}`; `Keys.ParseFormatRoundTrip` and `Keys.FormatKeyInjective` state that it loses nothing |
| `Keys.ParseKey` | src/GameBoardCopy.js:98-99 | `split("-").map(Number)`: one value per piece between dashes; `Keys.ParseFormatRoundTrip` gives its result on formatted keys |
| `Keys.GetNextCellKey` | src/GameBoardCopy.js:118-127 | the string-level next key, with `undefined` and NaN as JavaScript produces them; `Keys.GetNextCellKeyFormat` ties it to `Keys.NextKey` |
| `Keys.WalkPosition` | src/GameBoardCopy.js:118-127 | n steps of next-cell from a key in a direction land n columns to the right (across) or n rows down (down) |
| `Grid.GridSizeBounds` | src/GameBoardCopy.js:18-32 | the board size bounds every word's extent (start.x+len or start.x+1 for width, start.y+1 or start.y+len for height), and each non-zero side is reached by some word; no words give 0 by 0 |
| `Grid.CalculateGridSize` | src/GameBoardCopy.js:18-32 | the loop over the words returns exactly the width and height of `GridSize` |
| `Grid.CoversIff` | src/GameBoardCopy.js:37-46 | a word covers a key exactly when that key is the key of one of its letters |
| `Grid.Upper` | src/GameBoardCopy.js:41 | the uppercased letter is never a lower-case letter, and a character that is not lower case is unchanged |
| `Grid.PlaceWord` | src/GameBoardCopy.js:38-47 | writing a word's first n letters never removes a key and adds at most n keys; `Grid.PlaceWordAt` states which keys it holds and what |
| `Grid.Build` | src/GameBoardCopy.js:36-48 | the initial map, words written in order; `Grid.BuildAt`, `Grid.BuildKeys` and `Grid.BuildStoresLetter` state its keys and cells |
| `Grid.PlaceWordAt` | src/GameBoardCopy.js:37-47 | after writing the first n letters of a word, a key is present iff it was before or is one of those letters; such a key holds that letter's cell; other keys keep their old cell |
| `Grid.LastCover` | src/GameBoardCopy.js:36-44 | finds the last word that covers a key: it covers it and no later word does, or no word does at all |
| `Grid.BuildAt` | src/GameBoardCopy.js:34-48 | a key is in the initial map iff some word covers it, and it holds the cell written by the last covering word |
| `Grid.BuildKeys` | src/GameBoardCopy.js:36-47 | the initial map's keys are exactly the cells covered by some word; uncovered cells are absent |
| `Grid.BuildStoresLetter` | src/GameBoardCopy.js:37-46 | letter i of a word is stored at (start.y+1, start.x+1+i) across or (start.y+1+i, start.x+1) down, uppercased, with guess "" and the word's direction, unless a later word writes that key |
| `Grid.BuildCellsFresh` | src/GameBoardCopy.js:40-44 | every initial cell has an empty guess and a letter that is not lower case |
| `Grid.KeysWithinGrid` | src/GameBoardCopy.js:36-47 | every key of the initial map has 1 <= row <= height and 1 <= col <= width of the board size of the same words |
| `Grid.BuildGuesses` | src/GameBoardCopy.js:34-50 | the nested loops with the x/y cursor build exactly the map `Build` describes |
| `Grid.Level1Size` | src/levels/level1.js:4-7 | level 1 is 4 columns wide and 7 rows high |
| `Grid.Level1KeyIff` | src/levels/level1.js:4-7 | a key is a cell of level 1 exactly when it is one of (1,1)..(1,4), (2,4)..(7,4) |
| `Grid.Level1KeySet` | src/levels/level1.js:4-7 | level 1 has exactly 10 cells, (1,1)..(1,4) and (2,4)..(7,4) |
| `Grid.Level1Cells` | src/levels/level1.js:4-7 | (1,4) holds 'P' with direction down, inherited from "package"; (1,1) holds 'S' across |
| `Board.LastCharUpper` | src/GameBoardCopy.js:53 | the new guess has at most one character, is empty exactly when the input is, and is never lower case |
| `Board.Complete` | src/GameBoardCopy.js:76-79 | every cell's guess equals its letter and is non-empty (an empty map is complete); characterised by `Board.CompleteAfterGuess` and `Board.CompleteIffAllHighlighted` |
| `Board.ApplyGuess` | src/GameBoardCopy.js:52-59 | a keystroke sets the cell's guess to the last character typed, uppercased ("" for empty input), keeps its letter and direction, and leaves every other cell and the key set unchanged |
| `Board.CompleteIffAllHighlighted` | src/GameBoardCopy.js:76-79 | the level is complete exactly when every cell shows the correct-guess highlight of the grid (guess equals letter) |
| `Board.CompleteAfterGuess` | src/GameBoardCopy.js:70-86 | after a keystroke the level is complete iff the new guess is that cell's letter and every other cell was already correct |
| `Board.WrongGuessBreaksCompletion` | src/GameBoardCopy.js:76-85 | a wrong or empty guess in any cell makes the level incomplete |
| `Board.EitherCaseTypesLetter` | src/GameBoardCopy.js:53 | an input ending in the expected letter, in upper or lower case and after any earlier characters, yields exactly that letter as the guess |
| `Board.TypeAnswers` | src/GameBoardCopy.js:52-59 | typing a sequence of inputs into cells one after another keeps the key set and every cell's letter |
| `Board.TypeAnswersCorrect` | src/GameBoardCopy.js:52-59 | a cell that received keystrokes whose uppercased last character is its letter ends up showing the correct guess |
| `Board.TypingAllAnswersCompletes` | src/GameBoardCopy.js:76-79 | typing into every cell an input whose last character is that cell's letter, in either case, makes the level complete, whatever the previous guesses |
| `Board.IsActiveWordKey` | src/GameBoardCopy.js:96-116 | no anchor: nothing active; otherwise the anchor's row from its column on (across) or its column from its row on (down); `Board.ActiveIsReachable` states it as reachability |
| `Board.ActiveIsReachable` | src/GameBoardCopy.js:96-116 | a key is in the active word iff auto-advance can reach it from the anchor by some number of next-cell steps in the anchor's direction |
| `Board.ActiveRayUnbounded` | src/GameBoardCopy.js:102-113 | the active word has no end: the next cell after an active key, in the anchor's direction, is active too |
| `Board.MarksKey` | src/GameBoardCopy.js:143-147 | an intersection sits on a key when its zero-based position plus one is the key's column and row |
| `Board.IsIntersection` | src/GameBoardCopy.js:143-147 | `some`: at least one intersection sits on the key; `Board.FindClues` finds a value exactly when this holds |
| `Board.FindClues` | src/GameBoardCopy.js:160-167 | the clue lookup finds something iff some intersection sits on the key, and then returns the clues of the first such intersection |
| `Board.Level1Clues` | src/levels/level1.js:8-19 | level 1's only intersection is the cell (1,4), and it yields the two clue images in declared order |
| `Board.GameBoard.constructor` | src/GameBoardCopy.js:9-16 | a new board holds the initial map of the level, no anchor, no focus, no clues, and an up-to-date completion flag |
| `Board.GameBoard.SelectLevel` | src/GameBoardCopy.js:209-211 | selecting the current level changes nothing; another level rebuilds the cells and discards the guesses while the anchor and focus stay |
| `Board.GameBoard.HandleFocus` | src/GameBoardCopy.js:89-93 | after focusing a cell it is active; the anchor changes iff the cell was not already active, and then it becomes the anchor |
| `Board.GameBoard.HandleInputChange` | src/GameBoardCopy.js:52-68 | the guess update of `ApplyGuess`, completion rechecked, anchor kept, focus moved to the next cell in the cell's direction iff that cell exists and is active |
| `Board.GameBoard.ClueIconClick` | src/GameBoardCopy.js:129-132 | clicking a marker shows the clues of the first intersection at that cell |
| `Board.GameBoard.ViewAt` | src/GameBoardCopy.js:141-182 | a rendered cell is enabled iff the key is a cell, is marked iff an intersection sits there, is highlighted iff its guess equals its letter, and shows its guess or "" |
| `Board.CellsWithinGrid` | src/GameBoardCopy.js:18-48 | every cell of a board laid out from some words has 1 <= row <= height and 1 <= col <= width of those words' board size |
| `Board.GameBoard.RenderRow` | src/GameBoardCopy.js:139-186 | the inner loop of `renderGrid` yields width cells, cell c being the view of (y, c+1) |
| `Board.GameBoard.RenderGrid` | src/GameBoardCopy.js:134-196 | the grid has height rows of width cells, each showing that key's view, and every cell of the level appears in it enabled |
| `Board.PlayShip` | src/GameBoardCopy.js:52-93 | on any fresh board with level 1's layout around (1,1)..(1,4) and (2,4), typing 's' at (1,1) moves focus to (1,2), typing at (1,4) keeps focus there, and the level is not complete |
| `Board.Level1Walkthrough` | src/GameBoardCopy.js:52-68 | on level 1, typing 's' at (1,1) moves focus to (1,2); typing at (1,4) keeps focus there; the level is not complete |
| `Panel.ClueModal.constructor` | src/ClueModal.js:4-6 | a new panel is not dragging, sits at (100, 100) and has no offset |
| `Panel.ClueModal.StartDrag` | src/ClueModal.js:8-14 | press-down enters dragging and records offset = pointer − top-left, without moving the panel |
| `Panel.ClueModal.OnDrag` | src/ClueModal.js:16-22 | while dragging, the top-left becomes pointer − recorded offset; otherwise it stays |
| `Panel.ClueModal.MouseMove` | src/ClueModal.js:34 | a move reaches the drag handler only while dragging; when idle the position is unchanged |
| `Panel.ClueModal.StopDrag` | src/ClueModal.js:24-26 | mouse-up or mouse-leave returns to idle; position and offset are untouched |
| `Panel.ClueModal.Render` | src/ClueModal.js:28-40 | a closed panel renders nothing, an open one renders at its position; the check reads no state and changes none |
| `Panel.ClueModal.Drag` | src/ClueModal.js:8-22 | after a press and any number of moves the panel is still dragging, the recorded offset is press − starting top-left, and the panel has moved by exactly the pointer's displacement from the press |
| `Panel.DragThenMove` | src/ClueModal.js:16-22 | after any drag gesture from a fresh panel, a further move puts the panel at that pointer minus the press offset |
| `Panel.DragExample` | src/ClueModal.js:8-22 | from (100, 100), a press at (150, 130) then a move to (200, 180) puts the panel at (150, 150) |
| `Panel.DragThenRelease` | src/ClueModal.js:8-36 | a press, a move and a release move a fresh panel by the pointer displacement; a later move does nothing |

Behaviour of the code worth noting:

- The state hooks of the clue panel run before the `if (!isOpen) return null`
  check, so closing the panel keeps its position and its dragging flag
  (`Panel.ClueModal.Render`). The recorded offset is stored on the panel's DOM
  element, which closing unmounts, so it does not survive.
- On level 1, typing the last letter of "SHIP" at (1,4) does not move focus.
  The shared cell (1,4) has direction down, taken from "package", so the next
  cell is (2,4), which is off the across ray anchored at (1,1)
  (`Board.Level1Walkthrough`).
- Re-selecting level 1 from its button does not clear the guesses. The level
  object is the same, so React skips both the state update and the effect
  (`Board.GameBoard.SelectLevel`).

## Left out

- Rendering details: JSX structure, CSS classes, inline styles, icons and the confetti animation. Only the per-cell view (enabled, intersection marker, highlight, value) is modelled.
- React refs and DOM focus. The focused input is the `focused` field. A programmatic `.focus()` is modelled as a call to the focus handler. A key with no cell cannot take focus, so focusing it changes nothing.
- React's asynchronous state updates. Handlers are modelled as running in sequence, with the completion effect applied at the end of each guess change. The stale `guesses` read in the keystroke handler is harmless, because guesses never change a direction. The completion check that runs at mount sees the empty map and raises the flag for one render. This is not modelled: the constructor's flag already reflects the built cells.
- `completeLevel` and its timer: never called.
- `console.log` output.
- The second level: its file is not part of this model, and its button is commented out.
- Coordinates are natural numbers. JavaScript numbers are doubles, exact only below 2^53: larger keys would not round-trip through `Number()`, `${n}` switches to exponent notation from 1e21, and `x + 1` stops changing past 2^53. Word starts are assumed non-negative; a negative start would format keys such as "1--1", which the model's `Pos` cannot express.
- `Number()` is modelled only for the strings a key can split into: "" is 0, decimal digits give their value, anything else is NaN. Whitespace, signs, decimal points, exponents and radix prefixes are not modelled.
- `toUpperCase` is modelled on ASCII letters only. Strings are sequences of characters, not UTF-16 code units.
- Directions other than across and down do not occur in level data and are not modelled.
- Board.GameBoard.SelectLevel: switching to a different level requires the current anchor to be a cell of the new grid. In the source, a missing anchor cell makes the next focus throw on reading `.direction`. Levels are compared by value, not by object identity.
- Board.GameBoard.HandleInputChange: requires the key to be a cell of the board. Inputs for other keys are disabled, so their change handler never runs.
- Board.GameBoard.ClueIconClick: requires an intersection at the key. The marker button is rendered only there.
- Closing and reopening the clue panel is not modelled. On reopen the source mounts a new element without an offset, so a panel closed mid-drag throws on the first move after reopening; the model keeps `offset` across renders, and its invariant (dragging implies an offset is recorded) does not hold for the source in that case.
- `getBoundingClientRect` is taken to return the panel's current position. Pixel coordinates are integers, not floats.
- The clue panel's `onClose` and `content` props come from the parent and are not modelled. Clue image paths are opaque strings; only their order matters.
