# Nokia-style Snake: the game-state engine

This project models the game logic of a single-file React Snake game
(`nokia-snake-game.tsx`). The React hooks are replaced by one immutable
`State` value:

- the snake, a sequence of cells with the head first;
- the direction, a vector added to the head on each tick;
- the food cell and the score;
- three independent flags: `gameStarted`, `gameOver` and `isPaused`.

Each handler of the component becomes a pure function over `State`:

- `Step` is the timer tick (`moveSnake`).
- `HandleKeyPress` is the keydown handler. The key arrives as its name string, as in `e.key`.
- `HandleDirectionClick` is the on-screen arrow buttons.
- `TogglePauseButton` is the on-screen pause button.
- `Reset` is "Play Again" (`resetGame`).
- `Initial` is the state of the first render.

`GenerateFood` stands for the rejection-sampling food placement. The random
draw is a parameter `rnd`. The result is the free cell at position `rnd`
(modulo the number of free cells) in row-major order. So every free cell is
the outcome of some draw, and no occupied cell is.

Modules:

- `Counting`: set-cardinality facts used to count free cells.
- `Grid`: the 15×15 board, cells, directions and the enumeration of all cells.
- `Food`: free cells and food placement.
- `Game`: the state and every transition.
- `Invariants`: the board invariant and its preservation by every transition.
- `StepProperties`: one tick, branch by branch.
- `Commands`: direction and pause inputs.
- `Session`: sequences of events from the first render, reachability and lifecycle.
- `Scenarios`: concrete ticks and inputs on small boards.

The model keeps the code's behaviour where a tidier lifecycle might be expected:

- "Play Again" sets `gameStarted` to true, so a finished game never returns to a not-started state.
- The pause button toggles the pause flag in every state. So "paused before the start" and "paused after game over" are reachable.
- An arrow key pressed while paused but not yet started starts the game, still paused.
- The snake's self-collision test includes the tail cell, which the same move would vacate.
- Direction commands are checked against the pending direction, not the last executed move. So two commands between ticks can reverse the snake.
- Food placement has no guard against a full board.

## Model

| member | source | states |
|---|---|---|
| Food.FreeCells | nokia-snake-game.tsx:24 | the cells it lists are exactly the board cells that no segment covers |
| Food.GenerateFood | nokia-snake-game.tsx:18-28 | given a free cell exists, the food lands inside the 15×15 board and on no segment of the snake it is given |
| Food.AnyFreeCellCanBeChosen | nokia-snake-game.tsx:20-23 | conversely, every free board cell is the food for some random draw |
| Food.ShortSnakeLeavesFreeCell | nokia-snake-game.tsx:19-27 | a snake of fewer than 225 segments, whatever its shape, leaves a cell free, so the sampling loop can return |
| Food.FullSnakeLeavesNoFreeCell | nokia-snake-game.tsx:19-27 | a snake of 225 distinct board cells leaves no free cell, so the sampling loop can never return |
| Game.Initial | nokia-snake-game.tsx:10-16 | the first render: one segment at (7,7), moving right, score 0, food off the snake, no flag set |
| Game.Reset | nokia-snake-game.tsx:30-38 | "Play Again" restores the one-segment snake, rightward direction and zero score, places food off the snake, and leaves the game started, running and unpaused |
| Game.Step | nokia-snake-game.tsx:40-71 | no change unless started, not over and not paused; a tick never changes direction or the started/paused flags; a tick that ends the game keeps snake, food and score; a tick that keeps it running puts a fresh in-board head before a prefix of the old snake |
| Game.Steer | nokia-snake-game.tsx:93-106 | the direction changes only to the requested heading and only when that heading is perpendicular to the current direction; a perpendicular request on a unit direction is always honoured |
| Game.HandleKeyPress | nokia-snake-game.tsx:79-107 | keys never touch snake, food, score or game over; the game is started after the key exactly when it was started before or the key name begins with "Arrow"; the pause flag flips exactly for the space key while started and not over; the direction changes only when neither paused nor over, to the perpendicular heading of an arrow key, and when neither paused nor over an arrow key for a perpendicular heading always turns the snake, started or not |
| Game.HandleDirectionClick | nokia-snake-game.tsx:113-123 | a button always starts the game and never touches board, score, pause or game over; it turns the snake only when neither paused nor over and only to a perpendicular heading, and in that case a perpendicular button always turns it |
| Game.TogglePauseButton | nokia-snake-game.tsx:200 | the pause button flips the pause flag in every state and changes nothing else |
| Invariants.InitialEstablishesInv | nokia-snake-game.tsx:5-16 | the first state has a non-empty in-board distinct snake, food on a free board cell, score 10 × (length − 1) and a unit direction |
| Invariants.ResetEstablishesInv | nokia-snake-game.tsx:30-38 | "Play Again" establishes that invariant |
| Invariants.StepPreservesInv | nokia-snake-game.tsx:43-70 | a tick keeps the segments in the board and pairwise distinct, the food on a free board cell, and the score at ten points per segment grown |
| Invariants.KeyPressPreservesInv | nokia-snake-game.tsx:79-107 | a key keeps the invariant, in particular a unit direction |
| Invariants.DirectionClickPreservesInv | nokia-snake-game.tsx:113-123 | a direction button keeps the invariant |
| Invariants.PauseButtonPreservesInv | nokia-snake-game.tsx:200 | the pause button keeps the invariant |
| Invariants.SnakeLeavesRoomForFood | nokia-snake-game.tsx:62-64 | in any valid state the snake is shorter than the 225 cells of the board |
| Invariants.StepDefinedWhileRoomLeft | nokia-snake-game.tsx:61-64 | while the snake is at least two segments short of the board, a tick always returns, because re-placing the food finds a free cell |
| Invariants.HangOnFullBoard | nokia-snake-game.tsx:64 | a valid 224-segment snake that moves without colliding must be eating, after which no free cell is left and the tick never returns |
| Invariants.ScoreIsMultipleOfFoodValue | nokia-snake-game.tsx:63 | in any valid state the score is a non-negative multiple of 10 |
| StepProperties.WallCollision | nokia-snake-game.tsx:47-51 | a head outside [0,15) on either axis sets game over and leaves snake, food, score and every other field unchanged |
| StepProperties.SelfCollision | nokia-snake-game.tsx:53-57 | a head on any current segment sets game over and leaves everything else unchanged |
| StepProperties.TailCellCounts | nokia-snake-game.tsx:54 | moving onto the last segment ends the game, although the body that move would produce has no repeated cell |
| StepProperties.PlainMove | nokia-snake-game.tsx:59-69 | a non-colliding, non-eating move yields the new head followed by the old snake minus its last segment; length, score and food unchanged |
| StepProperties.EatingMove | nokia-snake-game.tsx:59-66 | an eating move prepends the head without dropping a segment (length + 1), adds exactly 10 to the score, and draws the new food over the grown snake, off it and inside the board |
| Commands.SteerNeverReverses | nokia-snake-game.tsx:93-106 | one accepted command never points the snake opposite its current unit direction and keeps it a unit vector |
| Commands.KeyPressNeverReverses | nokia-snake-game.tsx:91-106 | no single key reverses the direction |
| Commands.DirectionClickNeverReverses | nokia-snake-game.tsx:117-122 | no single button reverses the direction |
| Commands.PerpendicularKeyTurns | nokia-snake-game.tsx:80-106 | unless paused or over, an arrow key for a perpendicular heading turns the snake to it and leaves the game started, including the key that starts it |
| Commands.TwoKeysReverse | nokia-snake-game.tsx:95-101 | moving right, Up then Left before the next tick leave the direction reversed, since the second key is checked against the pending direction |
| Commands.ReversalHitsNeck | nokia-snake-game.tsx:53-57 | after that double command, the next tick drives the head into the second segment and ends the game |
| Commands.DirectionFrozen | nokia-snake-game.tsx:91 | while paused or over, no key and no button changes the direction |
| Commands.SpaceGuardedButtonNot | nokia-snake-game.tsx:84-89 | before the start or after the end the space key changes nothing while the pause button still toggles |
| Commands.PauseTwiceIsIdentity | nokia-snake-game.tsx:87 | pausing twice, by button in any state or by space while running, restores the state exactly |
| Session.Apply | nokia-snake-game.tsx:170-177 | only a tick ends a game, and only "Play Again" (on screen only when the game is over) ends a finished one, replacing it by a fresh game |
| Session.ApplyPreservesSessionInv | nokia-snake-game.tsx:40-123 | every event keeps the board invariant and "over implies started" |
| Session.RunPreservesSessionInv | nokia-snake-game.tsx:40-123 | any replayable sequence of events keeps it |
| Session.ReachableStatesKeepInv | nokia-snake-game.tsx:10-16 | every state reachable from the first render satisfies it |
| Session.PausedBeforeStart | nokia-snake-game.tsx:200 | from any not-started, unpaused state the pause button gives a paused, not-started game; the first arrow key then starts it still paused, the turn is dropped and the next tick changes nothing |
| Session.PausedBeforeFirstStart | nokia-snake-game.tsx:80-82 | in particular from the first render: after pause, ArrowUp and a tick the game is paused, still heading right, with the initial snake |
| Session.FrozenAfterGameOver | nokia-snake-game.tsx:41 | once over, ticks, keys and direction buttons change nothing and the pause button only flips the pause flag |
| Session.StartedStaysStarted | nokia-snake-game.tsx:36 | once started, a session stays started through any events, "Play Again" included |
| Scenarios.MovesOneCell | nokia-snake-game.tsx:44-45 | one segment at (5,5) moving right ends at (6,5) with nothing else changed |
| Scenarios.HitsRightWall | nokia-snake-game.tsx:48-50 | a snake at (14,5) moving right ends the game in place |
| Scenarios.SquareLoopHitsTail | nokia-snake-game.tsx:54-56 | a four-segment snake closing a 2×2 square onto its tail cell ends the game |
| Scenarios.EatsFood | nokia-snake-game.tsx:62-65 | the snake (5,5),(4,5) eating at (6,5) becomes (6,5),(5,5),(4,5) with score 10 and the food moved off it |
| Scenarios.LeftWhileMovingRightIgnored | nokia-snake-game.tsx:100-102 | moving right, the left arrow leaves the direction unchanged |
| Scenarios.FirstArrowStartsAndTurns | nokia-snake-game.tsx:80-96 | on the first render, ArrowUp both starts the game and points the snake up |
| Scenarios.PauseHoldsTheBoard | nokia-snake-game.tsx:84-89 | space pauses a running game, a tick then changes nothing, and space again restores the running state exactly |

## Left out

- Rendering: JSX, colours, pixel layout and `CELL_SIZE` arithmetic (nokia-snake-game.tsx:125-225). These are presentation. The one thing taken from them is that the "Play Again" button only exists while the game is over.
- Timer and listener wiring: `setInterval`, `useEffect` and the keydown listener registration (:73-76, :109-110). A tick is one call of `Step`. A key press is one call of `HandleKeyPress`.
- React framework behaviour: stale closures, batching of state updates and `e.preventDefault()`. Every handler reads the state as it was before the event, as the component does between renders.
- Food.GenerateFood: `Math.random` is replaced by the draw parameter `rnd`. The model states which cells can be chosen, not that the choice is uniform.
- Game.Step: it requires `StepDefined`, which says an eating move leaves a free cell for the next food. On a full board the code's sampling loop never returns, and a Dafny function cannot return in that case. `Invariants.HangOnFullBoard` shows that this is exactly the case of a 224-segment snake making its last move.
- Grid.Perpendicular: defined as "one vector lies along each axis" rather than a zero dot product. The two agree on the four unit directions the game uses.
