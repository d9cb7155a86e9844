# Tetris grid logic in Dafny

A model of the game core of a browser Tetris clone: the grid utilities
(`src/utils/game.js`) and the game-state store (`src/store/game.js`).

- `game_utils.dfy`, module `GameUtils`: the seven-piece catalog, the
  collision test, merging a shape into a board, clearing full lines and the
  clockwise rotation. Boards and shapes are `seq<seq<int>>` matrices, 0 for
  an empty cell. Each utility that loops in the source is a method with
  loops, proved against a specification function: `Collides`, `Stamp`,
  `Cleared` or `RotateCW`. The properties the game relies on are lemmas
  about those functions.
- `game_store.dfy`, module `GameStore`: the store as a class `GameStore`.
  Its fields are `board`, `currentPiece`, `position`, `score`, `isGameOver`,
  `isPaused` and `loopActive`. `loopActive` stands for the timer handle
  `gameInterval` being set. Every action is a method whose postcondition
  ties the new state (`Snapshot()`) to a transition function of the old
  state (`AfterMoveLeft`, `AfterMoveDown`, `AfterMerge`, ...). It also
  keeps the invariant `Inv`: a 20×10 board with cells in 0..7, a
  well-formed piece, and, while the game is not over, a falling piece that
  does not collide. The lemmas at the end of the file state what the game
  promises about the transitions.

The random draw `Math.floor(Math.random() * 7)` is a parameter `draw < 7`
of every action that can spawn a piece. The timer callback is the method
`Tick`.

Points of the two source files that are easy to misread:

- The store rotates counter-clockwise with an inline expression
  (`src/store/game.js:149-151`). `rotateShape` rotates clockwise
  (`src/utils/game.js:105`). They are two functions here, `RotateCCW` and
  `RotateCW`. They are proved to be inverses, and two quarter turns either
  way give the same half turn.
- The store never calls `mergeShapeToBoard`, which writes `1`. Its own
  inline merge writes the piece type. Both are modelled as written:
  `MergeShapeToBoard` and `GameStore.WritePiece`.
- Four turns in either direction give back every shape exactly, whatever its
  dimensions (`FourTurnsIdentity`).
- `startGame` starts the loop after spawning without checking
  `isGameOver`. On the empty board it has just made, the spawned piece never
  collides (`SpawnOnEmptyBoard`), so the game is always running afterwards
  (`StartResets`).

## Model

| member | source | states |
|---|---|---|
| `GameUtils.GetRandomShape` | src/utils/game.js:2-30 | the draw picks a catalog entry; its type is draw+1 in 1..7; its shape is a non-empty rectangular 0/1 matrix of 1 or 2 rows and 2 to 4 columns |
| `GameUtils.CheckCollision` | src/utils/game.js:33-54 | returns true iff some occupied shape cell lands left of column 0, at or right of the board width, at or below the last row, or on a nonzero cell of a row ≥ 0; the board is never indexed at a negative row |
| `GameUtils.AboveBoardOnlyWalls` | src/utils/game.js:44-46 | a shape wholly above the board collides iff some occupied cell is outside the side walls |
| `GameUtils.Stamp` | src/utils/game.js:57-73 | writing a value under a shape keeps the board's height and every row's length |
| `GameUtils.MergeShapeToBoard` | src/utils/game.js:57-73 | returns a board of the input's dimensions that is 1 at every occupied, in-bounds cell of the shape and equal to the input elsewhere; the input is a value and is not changed |
| `GameUtils.StampKeepsRange` | src/store/game.js:165-175 | writing a value in lo..hi under a shape keeps a rectangular board rectangular, of the same width, with every cell in lo..hi |
| `GameUtils.NoCollisionFillsEmpty` | src/utils/game.js:44-46 | under a placement that does not collide, every covered board cell is 0 and every occupied cell is within the side walls and above the floor |
| `GameUtils.Cleared` | src/utils/game.js:86-89 | the cleared board has as many rows as the input |
| `GameUtils.KeptCountSplit` | src/utils/game.js:77-84 | the kept rows and the counted full rows together are all the input rows |
| `GameUtils.KeptMembers` | src/utils/game.js:78-84 | a row is kept iff it is a row of the input and not full |
| `GameUtils.ClearLines` | src/utils/game.js:76-95 | `linesCleared` is the number of full input rows; the result is that many empty rows followed by the non-full rows in their original order |
| `GameUtils.ClearedShape` | src/utils/game.js:86-89 | on a rectangular board, every row of the cleared board has the input's width |
| `GameUtils.ClearedKeepsRange` | src/utils/game.js:86-89 | clearing keeps every cell in a range that contains 0 |
| `GameUtils.NoFullRowIsFixed` | src/utils/game.js:78-84 | a board without a full row reports 0 lines and keeps every row |
| `GameUtils.ClearFullBottomRow` | src/utils/game.js:76-95 | when only the bottom row is full, one line is reported and the result is an empty row on top of the other rows |
| `GameUtils.ClearedIsIdempotent` | src/utils/game.js:78-89 | with width > 0 the cleared board has no full row, so clearing it again reports 0 lines and returns the same board |
| `GameUtils.RotateCW` | src/utils/game.js:98-101 | the clockwise turn of a rows×cols matrix is cols×rows |
| `GameUtils.RotateCCW` | src/store/game.js:149-151 | the store's turn of a rows×cols matrix is cols×rows |
| `GameUtils.RotateShape` | src/utils/game.js:98-110 | returns a cols×rows matrix with `rotated[col][rows-1-row] == shape[row][col]` for every cell; the input is not changed |
| `GameUtils.RotationsKeepShape` | src/store/game.js:147-152 | either turn of a non-empty rectangular 0/1 shape is again one |
| `GameUtils.RotationsAreInverse` | src/store/game.js:149-151 | the store's counter-clockwise turn undoes `rotateShape`'s clockwise turn and the other way round |
| `GameUtils.HalfTurns` | src/utils/game.js:105 | two clockwise turns and two counter-clockwise turns both give the half turn |
| `GameUtils.FourTurnsIdentity` | src/utils/game.js:98-110 | four turns in either direction give back the original shape |
| `GameStore.GameStore.constructor` | src/store/game.js:7-16 | empty 20×10 board, no piece, position (0,0), score 0, both flags false, no timer |
| `GameStore.GameStore.DisplayBoard` | src/store/game.js:21-44 | without a piece the board itself; with one, a 20×10 board equal to `board` except at the piece's occupied in-bounds cells, which hold its type; `board` is not modified |
| `GameStore.GameStore.StartGame` | src/store/game.js:50-60 | the new state is a reset, a spawn and a started loop, whatever the old state |
| `GameStore.GameStore.SpawnNewPiece` | src/store/game.js:63-81 | the new state is the spawn transition and meets the invariant |
| `GameStore.GameStore.StartGameLoop` | src/store/game.js:84-95 | only `loopActive` changes, to true |
| `GameStore.GameStore.StopGameLoop` | src/store/game.js:98-103 | only `loopActive` changes, to false |
| `GameStore.GameStore.Tick` | src/store/game.js:86-93 | one move down unless paused or over; otherwise nothing changes |
| `GameStore.GameStore.MoveLeft` | src/store/game.js:106-112 | the new state is the move-left transition; the invariant is kept |
| `GameStore.GameStore.MoveRight` | src/store/game.js:115-121 | the new state is the move-right transition; the invariant is kept |
| `GameStore.GameStore.MoveDown` | src/store/game.js:124-140 | the new state and the result are the move-down transition; the invariant is kept |
| `GameStore.GameStore.Rotate` | src/store/game.js:143-158 | the new state is the rotate transition; the invariant is kept |
| `GameStore.GameStore.MergePiece` | src/store/game.js:161-181 | the new state is the merge transition: write the type, clear lines, score, spawn |
| `GameStore.GameStore.WritePiece` | src/store/game.js:165-175 | only `board` changes: the type is written into exactly the covered in-bounds cells |
| `GameStore.GameStore.PauseGame` | src/store/game.js:184-186 | only `isPaused` changes, and the invariant is kept |
| `GameStore.SpawnOnEmptyBoard` | src/store/game.js:63-81 | no catalog piece collides at its spawn point on an empty board |
| `GameStore.SpawnPlacement` | src/store/game.js:63-81 | the piece is the drawn catalog entry at y = 0, x = floor((10 - w) / 2), with 0 ≤ x and x + w ≤ 10; `isGameOver` becomes true iff it was or the piece collides; a collision stops the loop; board, score and pause flag are unchanged |
| `GameStore.SpawnKeepsInv` | src/store/game.js:75-80 | spawning from any well-formed state establishes the invariant |
| `GameStore.StartResets` | src/store/game.js:50-60 | after startGame: an all-zero 20×10 board, score 0, both flags false, the loop running, the drawn piece in play, invariant holds |
| `GameStore.IdleActionsAreNoOps` | src/store/game.js:105-158 | when paused, over or without a piece, moveLeft, moveRight and rotate change nothing, and moveDown returns false and changes nothing |
| `GameStore.SideMovesShiftOnlyX` | src/store/game.js:106-121 | moveLeft/moveRight either change nothing or change only `position.x`, by exactly -1/+1, to a collision-free place; and when the game is in play and that place is collision-free, the move is made |
| `GameStore.SideMovesUndo` | src/store/game.js:106-121 | a successful move left is undone by a move right, and the other way round |
| `GameStore.WallsStopSideMoves` | src/store/game.js:106-121 | with an occupied cell in column 0 moveLeft changes nothing; with one in column 9 moveRight changes nothing |
| `GameStore.MoveDownOutcome` | src/store/game.js:124-140 | when not idle, moveDown returns true iff y+1 is collision-free and then only `position.y` grows by 1; otherwise the result is the merge |
| `GameStore.RotateOutcome` | src/store/game.js:143-158 | rotate changes nothing, or replaces only the shape by its counter-clockwise turn, keeping type and position, where the turn does not collide; and when the game is in play and the turn does not collide, the turn is made |
| `GameStore.PieceInPlayIsInside` | src/store/game.js:76 | while playing, every occupied cell of the piece is within the side walls and above the floor, over an empty board cell |
| `GameStore.Settle` | src/store/game.js:165-179 | writing the piece type and clearing lines leaves a 20×10 board with cells in 0..7 |
| `GameStore.MergeScoresLines` | src/store/game.js:161-181 | merge adds exactly 100 × the full rows of the stamped board, so the score never decreases; the board is the cleared stamped board and stays 20×10 with cells in 0..7 |
| `GameStore.CompletingBottomRowScores` | src/store/game.js:177-179 | a merge that completes only the bottom row scores 100 and leaves an empty row on top of the other rows |
| `GameStore.ActionsKeepInv` | src/store/game.js:63-186 | every action keeps the invariant: well-formed board and piece, and while playing no collision |
| `GameStore.PauseTwiceRestores` | src/store/game.js:184-186 | pauseGame flips only `isPaused`, so two calls restore the state |
| `GameStore.TickIsMoveDown` | src/store/game.js:86-93 | on a state that meets the invariant, a timer tick has the same effect as a move down, since moveDown changes nothing when paused or over |
| `GameStore.Fall` | src/store/game.js:124-140 | repeated moves down keep the invariant |
| `GameStore.OPieceOnEmptyBoard` | src/utils/game.js:33-54 | the O piece at column 4 of an empty board fits on rows 0 to 18 and collides on row 19 |
| `GameStore.OPieceFalls` | src/store/game.js:124-135 | on an empty board the O piece falls one row per move down until row 18 |
| `GameStore.OLandedCells` | src/store/game.js:165-175 | the O piece stamped at (4, 18) on an empty board gives a 20×10 board holding type 2 exactly in rows 18-19, columns 4-5, and 0 everywhere else |
| `GameStore.OLandedClearsNothing` | src/store/game.js:177-179 | that board has no full row, so clearing reports 0 lines and leaves it as it is |
| `GameStore.OPieceLands` | src/store/game.js:136-139 | the O piece on row 18 of an empty board cannot move down; it is merged without scoring and the board becomes the stamped board above |
| `GameStore.ODropScenario` | src/store/game.js:50-181 | after startGame with the O piece, 18 moves down (18 timer ticks) bring it to row 18; the next move down lands it: type 2 in columns 4-5 of rows 18 and 19, score 0 |

## Left out

- `setInterval` and `clearInterval`: host scheduling. The handle is the flag `loopActive` and each timer callback is a call to `Tick`.
- `gameSpeed`, the timer period: it only parameterises the host timer.
- `Math.random`: each spawning action takes the draw `draw < 7` as a parameter.
- `console.log` calls: output with no effect on state.
- Pinia reactivity, and the JSON deep copy in `displayBoard`: boards are values here, so a copy is the same value. Sharing of shape arrays between the catalog and the current piece is not modelled for the same reason.
- vite.config.js and src/main.js: bundler configuration and app bootstrap, with no game logic.
- `GameUtils.CheckCollision`: requires a non-empty rectangular board and a non-empty rectangular shape. The source throws a TypeError when reading the width of an empty board or shape, and it reads a ragged row as `undefined`.
- `GameUtils.MergeShapeToBoard`: requires a rectangular board. The source would extend a shorter row instead of writing into it.
- `GameUtils.RotateShape`: requires a non-empty rectangular shape. The source throws on an empty one and writes `undefined` for a ragged one.
- `GameStore.GameStore.DisplayBoard`: stated only for well-formed states (a 20×10 board with cells in 0..7 and a well-formed piece, if any). The source hard-codes the 20×10 bounds.
- `GameStore.GameStore.Tick`: requires `loopActive`, because the callback only runs while the timer is set.
- `GameStore.GameStore.WritePiece`: the in-place writes of `mergePiece` form a method of their own, so that `MergePiece` reasons only about its result.
