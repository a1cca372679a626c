# Snake for the Tildagon badge, modelled in Dafny

This project models the Snake game of the badge app `SnakeApp` (`main.py`).
The game is a small state machine over one record: the snake's body (head
first), the food cells, the heading, the score, the accumulated movement
timer, the game flag (`""`, `"ON"`, `"OVER"`) and the pending "Play Again?"
prompt. On each frame the host calls `update(delta)`. The first held button in
the order RIGHT, LEFT, UP, DOWN, CANCEL steers or stops the game. Elapsed time
accumulates, and every time it passes 500 ms the snake moves one cell. A move
eats the food under the new head and grows the snake. It ends the game once
the head leaves the 32 × 32 field. A background task drops food on random
cells, and either answer to the prompt restarts the game.

The model is functional. `SnakeGame.State` is an immutable datatype, and each
method of the app is a total function from the old record to the new one. The
button snapshot, the frame time and the random food cell are parameters.

Modules:

- `Board` (`board.dfy`): cells, the field, headings, and `NextHead`.
- `Lists` (`lists.dfy`): duplicate-free lists, and `RemoveFirst`, which is Python's `list.remove`.
- `Controls` (`controls.dfy`): the buttons, and `FirstHeld`, the reference definition of button priority.
- `SnakeGame` (`snake.dfy`): the record and the operations `Initial`, `Reset`, `Advance`, `Move`, `Steer`, `Tick`, `Update` and `GenerateFood`.
- `SnakeInvariants` (`invariants.dfy`): the invariant `Valid` and proofs that every operation keeps it. Every event sequence the host can drive keeps it too. Under `Valid`, the snake is never empty and the score equals the number of segments grown. The food cells are distinct and on the field. Every consecutive pair of body cells is a pair of neighbours, except the last pair: a meal copies the head onto the tail, and that copy can be far from the segment before it until the next move drops it.
- `Timing` (`timing.dfy`): the movement timer over many frames.
- `GameScenarios` (`scenarios.dfy`): edge cases of the rules as written.

## Model

| member | source | states |
|---|---|---|
| SnakeGame.Initial | main.py:10-20 | a new game has a one-cell snake at (16, 16), no food, no heading, score 0, timer 0, an empty game flag and no prompt |
| SnakeGame.Reset | main.py:22-27 | restarting gives the initial record, except that the timer and the game flag keep their values |
| Board.NextHead | main.py:70-82 | the new head is one cell from the old one. RIGHT is the only heading that adds 1 to x, LEFT the only one that subtracts 1 from x, UP the only one that subtracts 1 from y, and DOWN the only one that adds 1 to y. With no heading the head stays put |
| SnakeGame.Advance | main.py:69-82 | a heading puts the new head in front and drops the last segment, so the length does not change. With no heading the body is unchanged |
| SnakeGame.Move | main.py:69-95 | the body advances. If the new head is on food, one copy of that cell leaves the food multiset, the snake grows by one segment equal to the head, and the score rises by 1. Otherwise food, score and length stay the same. The game becomes OVER exactly when the head leaves the 32 × 32 field, and is otherwise left alone. Heading, timer and prompt do not change |
| Lists.RemoveFirst | main.py:85-86 | removing a food cell drops exactly one element and cuts the list open at the first occurrence of that cell, keeping the order of the rest |
| Lists.FirstIndex | main.py:86 | the first occurrence of a value: it holds that value, and no earlier element does |
| Lists.RemoveFirstCounts | main.py:86 | removal takes exactly one copy of the cell out of the multiset of food |
| Lists.RemoveFirstNoDup | main.py:85-86 | removing from a duplicate-free list keeps it duplicate-free and leaves the cell absent |
| Controls.FirstHeld | main.py:36-51 | the press an update acts on is a held button whose predecessors in the priority order are all released. There is no press exactly when none of the listed buttons is held |
| Controls.Steering | main.py:36-47 | exactly the four direction buttons select a heading. CONFIRM and CANCEL select none |
| Controls.PriorityUnfolds | main.py:36-51 | the priority reference agrees with the update's chain of tests RIGHT, LEFT, UP, DOWN, CANCEL |
| SnakeGame.Steer | main.py:36-51 | following the priority reference, a direction press sets that heading and the ON flag, CANCEL clears the flag, and no press changes nothing |
| SnakeGame.Tick | main.py:53-67 | a non-empty snake is needed only when the timer fires. When a running game's accumulated time exceeds 500 ms, the game moves and the timer becomes 0. Otherwise the time accumulates and the snake, food and score stay. OVER raises the prompt and clears the flag. An empty flag stays empty |
| SnakeGame.Update | main.py:35-67 | the heading follows the priority reference. The snake moves exactly when the flag after steering is ON and the timer plus delta exceeds 500. The result is then the move of the steered record with the timer at 0, so food, score, growth and the OVER flag follow the move. Without a move the timer holds the full sum and the snake, food and score are unchanged. The flag and prompt change as steering and the timer dictate |
| SnakeGame.GenerateFood | main.py:97-100 | after a drop the cell is in the food list. The food holds exactly the old cells plus that one, with the old list as prefix. The list grows by one exactly when the cell was new, and a duplicate-free list stays duplicate-free. Nothing else changes |
| SnakeInvariants.InitialValid | main.py:14-19 | the initial record satisfies the game invariant |
| SnakeInvariants.ResetValid | main.py:22-27 | a restart re-establishes the invariant from any record |
| SnakeInvariants.MoveKeepsChain | main.py:69-87 | a move keeps every consecutive pair of segments adjacent, except the last pair. A snake that has never moved stays on a single cell |
| SnakeInvariants.MoveValid | main.py:69-95 | a move keeps the invariant: the snake is non-empty, score + 1 equals the length, the food is distinct and on the field, and the body is a chain |
| SnakeInvariants.SteerValid | main.py:36-51 | steering keeps the invariant |
| SnakeInvariants.UpdateValid | main.py:35-67 | every frame keeps the invariant |
| SnakeInvariants.GenerateFoodValid | main.py:97-100 | dropping food on a field cell keeps the invariant |
| SnakeInvariants.PlayValid | main.py:35-106 | any sequence of frames, food drops on field cells and restarts keeps the invariant |
| Timing.IdleAccumulates | main.py:53-59 | while the game is not running, frames change nothing but the timer, which holds the total elapsed time |
| Timing.WaitsBelowThreshold | main.py:53-58 | in a running game with non-negative frame times, nothing but the timer changes while the total stays at or below 500 ms |
| Timing.Cadence | main.py:53-58 | with frames of d ms from a zero timer, the snake waits 500 / d frames and moves on the next one |
| Timing.ExcessDiscarded | main.py:55-58 | once the timer fires, the amount by which it passed 500 ms makes no difference to the outcome: the excess is not carried over |
| GameScenarios.PressAfterGameOverSkipsPrompt | main.py:36-67 | a direction pressed in the frame after the game ended makes the game ON again before the OVER branch runs, so no prompt appears |
| GameScenarios.CancelFreezes | main.py:48-58 | CANCEL as the winning press clears the flag, freezes the snake and food, and still adds delta to the timer |
| GameScenarios.StaleTimerMovesOnFirstPress | main.py:36-58 | time accumulated before the first press is kept, so a press on a timer past 500 ms moves the snake in the same frame |
| GameScenarios.EatsWithoutMoving | main.py:71-88 | with no heading, food under the head is still eaten and the snake grows in place |
| GameScenarios.SelfCrossingIsNotFatal | main.py:69-95 | for every record with a heading: a head that lands inside the field on a segment the move keeps is on the body afterwards, and the game flag is unchanged |
| GameScenarios.SelfCrossingExample | main.py:69-95 | an example board on which the snake curls round onto its own body and the game stays ON |
| GameScenarios.ReversalAccepted | main.py:36-47 | there is no reversal guard: the button opposite to the current heading sets the opposite heading, and a move in that frame puts the new head one step back from the old head |

## Left out

- `draw` (main.py:108-132) is canvas rendering.
- `background_task` (main.py:102-106) is an asyncio loop that sleeps 5 s. The model keeps only the food drop, `GenerateFood`, with the random cell from `random.randrange(32)` as a parameter. The ON guard around it is not modelled: `SnakeInvariants.Event` lets the host drop food at any time, in any game phase, which covers the guarded case.
- `SnakeGame.GenerateFood` does not require its cell to lie on the field, because the random generator is outside the model. `SnakeInvariants.GenerateFoodValid` adds that requirement.
- `_exit` (main.py:29-32) affects the game record exactly as `_reset` does. Its button-buffer clear and `minimise()` are host effects. The same holds for the clear and `minimise()` in the CANCEL branch (main.py:49-51).
- The `YesNoDialog` (main.py:60-65) is modelled only as the flag `dialog`. It is raised when an OVER game is seen, and a restart clears it. Its drawing and its own button handling belong to the host.
- `SnakeGame.Move` requires a non-empty snake, because it reads the head (main.py:70). `SnakeGame.Tick` and `SnakeGame.Update` require one only in a frame where the snake moves. Idle and OVER frames do not read the head. `SnakeInvariants.PlayValid` shows that an empty snake never arises.
- `hexdrive.py` is direct I2C register and GPIO pin access, which is hardware I/O. Its two constants are the app version (hexdrive.py:13) and the index of the power-enable pin (hexdrive.py:15).
- `dev/build_release.py` is file-system and compiler plumbing.
- `app.py` is a hello-world screen.
- `tests/test_smoke.py` holds import and instantiation smoke tests with no behaviour to model.
