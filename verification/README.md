# Snake game: a verified model of the gameplay core

This project models the gameplay state machine of a small Snake game. The game is written in C++ on top of a graphics library. The model covers:

- the snake, a deque of grid cells with the head at the front, a heading and a one-shot growth flag;
- the food, placed on the board by rejection sampling of random cells until one is not under the snake;
- the game controller, which on every tick moves the snake and then checks, in this order, for food, for the edges of the 25 x 25 board and for the snake's own body. It keeps the score and the `running` and `paused` flags;
- one pass of the main loop without its drawing: the tick gate, the four direction keys with their guard against reversal, and the Q pause toggle.

The source is imperative, and so is the model. `Snake`, `Food`, `Game` and the random source are classes whose methods update fields in place.

Each method of `Game` is proved against a pure function on one value of type `Rules.Play`, which gathers everything the controller owns. For example, `Game.Update` ends with the state `Step(old state, cell the food ends on)`. The other classes' methods are proved against their own functions: `Snake.Update` against `Advance`, and the food's methods against the cells the generator yields (`CellDrawnAt`, `NthCell`). The lemmas in `Rules` state what the functions on `Play` promise:

- the closed form of a tick;
- the effects of eating and of ending the game;
- the invariant every reachable state keeps: the body is on the board and never overlaps itself, the food is on the board and off the body, and the score equals the number of segments grown;
- the key guards;
- the effect of a paused frame.

`Scenarios` works through concrete runs.

The random generator belongs to the graphics library. It is an oracle `gen`: the k-th call `GetRandomValue(lo, hi)` answers `gen(k, lo, hi)`. The model assumes two things of it:

- it is *honest*: every answer lies in the requested range;
- it is *fair*: every board cell is generated again after any point.

Fairness, together with a pigeonhole lemma (`Grid.FreeCellExists`), is what makes the food's rejection loop return whenever the body leaves a cell free.

Two behaviours of the source are worth knowing:

- `Snake::reset` leaves the growth flag alone. So a tick that both ate and ended the game would carry a pending segment into the next game. `Rules.EatingNeverEnds` proves that such a tick cannot happen from a reachable state. The food is always on the board and off the body, so a head that reaches it neither crosses an edge nor lands on a segment. `Rules.EndingTick` accordingly shows that a game always restarts with no segment pending.
- The reversal guard compares a key with the current heading, and a key may already have changed that heading since the last move. Pressing UP and then LEFT in two frames between ticks, while moving right, turns the snake back into its own neck, and the next tick ends the game (`Scenarios.TwoTurnsBetweenTicksReverse`). The model keeps this behaviour as written.

## Model

| member | source | states |
|---|---|---|
| Grid.ElementInDeque | src/main.cpp:17-24 | the linear search returns true exactly when the cell occurs in the deque; the deque is a value and is not changed |
| Grid.FreeCellExists | src/main.cpp:95-101 | pigeonhole: a body shorter than the 625 board cells leaves some board cell uncovered, so the rejection loop has a cell it can accept |
| SnakeEntity.Advance | src/main.cpp:54-61 | one move: the new head is the old head plus the heading, every other segment is the previous occupant of the cell before it, and the length grows by one exactly when the growth flag is set |
| SnakeEntity.Snake.constructor | src/main.cpp:37-39 | a new snake is [(6,9),(5,9),(4,9)], heading right (1,0), with no growth pending |
| SnakeEntity.Snake.Update | src/main.cpp:54-61 | push-front of head plus heading, then pop-back unless a segment was pending; the heading is unchanged and the growth flag is clear afterwards |
| SnakeEntity.Snake.Reset | src/main.cpp:63-66 | body back to [(6,9),(5,9),(4,9)], heading back to (1,0), growth flag left as it was |
| Randomness.RandomSource.GetRandomValue | src/main.cpp:89-91 | each call consumes one answer of the generator and returns a value within the requested bounds |
| FoodEntity.Food.GenerateRandomCell | src/main.cpp:89-93 | the cell is built from the next two answers, x first, and lies in [0,25) x [0,25) |
| FoodEntity.Food.GenRandomPos | src/main.cpp:95-101 | the result is on the board and not in the body; it is the first generated cell not in the body, and every cell generated before it was in the body |
| FoodEntity.FairFindsFree | src/main.cpp:95-101 | with a fair generator and a body shorter than the board, the rejection loop returns from any point of the random stream |
| FoodEntity.Food.constructor | src/main.cpp:74-79 | a new food lies on the board and off the snake body it is given |
| Controller.Game.constructor | src/main.cpp:105-111 | a new game has the initial snake, food on the board and off it, running, not paused, score 0, and satisfies the invariant |
| Controller.Game.GameOver | src/main.cpp:169-176 | the snake is reset, the food is moved off the reset body, running is false and the score 0; nothing else changes |
| Controller.Game.CheckCollisionWithFood | src/main.cpp:150-158 | when the head is on the food, the food moves off the body, a segment becomes pending and the score rises by one; otherwise nothing changes |
| Controller.Game.CheckCollisionWithEdge | src/main.cpp:160-167 | a head with x or y equal to 25 or -1 ends the game, tested for x and then for y on the resulting state |
| Controller.Game.CheckCollisionWithTail | src/main.cpp:178-185 | a head found in the body without its head ends the game; otherwise nothing changes |
| Controller.Game.Update | src/main.cpp:141-148 | any tick except one that eats on a full board: no change unless running; otherwise move, then food, edge and self checks in that order (the function Step), and the game invariant is kept |
| Rules.ChecksCompose | src/main.cpp:141-148 | the three checks, each placing the food where it will, compose to one tick given the cell the food ends on |
| Rules.StepOutcome | src/main.cpp:141-185 | closed form of a tick: stopped means no change; a tick that crosses an edge or hits the body restarts the game stopped with score 0; one that eats grows and scores; any other only moves |
| Rules.EatingNeverEnds | src/main.cpp:150-185 | from a reachable state, a tick that eats never also ends the game |
| Rules.EatingTick | src/main.cpp:150-158 | from a reachable state, eating moves the snake, sets the pending segment, adds one to the score, keeps running and leaves the food at its new cell |
| Rules.EndingTick | src/main.cpp:169-176 | from a reachable state, a tick that ends the game leaves the initial snake, no pending segment, running false and score 0 |
| Rules.InitialInv | src/main.cpp:105-111 | the starting state satisfies the game invariant when the food is on the board and off the snake |
| Rules.MovedBodyDistinct | src/main.cpp:178-185 | a move whose new head is not in the rest of the moved body leaves a body without repeated cells |
| Rules.StepOffEdgeStaysInGrid | src/main.cpp:160-167 | from a board cell, a unit step that does not reach an edge line stays on the board |
| Rules.StepKeepsInv | src/main.cpp:141-185 | every tick keeps the invariant: body of at least 3 cells, on the board, no repeats; unit heading; food on the board and off the body; score equals segments grown |
| Rules.StepKeepsHeadInGrid | src/main.cpp:160-167 | a head on the board with a unit heading is on the board again after any tick |
| Rules.AcceptsIffNotReverse | src/main.cpp:209-224 | the component tests of the key guards accept a direction key exactly when not paused and its heading is not the reverse of the current one |
| Rules.TurnKeepsInv | src/main.cpp:209-224 | a direction key changes at most the heading and the running flag, and keeps the invariant |
| Rules.TogglePauseOnlyFlips | src/main.cpp:225-231 | Q flips the pause flag and changes nothing else; twice is no change; the invariant is kept |
| Rules.PausedFrameChangesOnlyPause | src/main.cpp:205-231 | while paused, a frame neither ticks nor turns; only Q has an effect |
| Rules.KeysKeepInv | src/main.cpp:209-231 | the key handling of a frame keeps the invariant |
| Rules.FrameKeepsInv | src/main.cpp:201-231 | a whole frame (gated tick, then keys) keeps the invariant |
| Controller.Game.Tick | src/main.cpp:205-207 | the tick runs exactly when it is due and the game is not paused |
| Controller.Game.PressDirection | src/main.cpp:209-224 | an accepted key sets the heading and running; a rejected key changes nothing |
| Controller.Game.PressPause | src/main.cpp:225-231 | the pause flag is flipped and nothing else changes |
| Controller.Game.HandleKeys | src/main.cpp:209-231 | the UP, DOWN, LEFT and RIGHT keys and then Q, in the loop's order, and the invariant is kept |
| Controller.Game.HandleFrame | src/main.cpp:201-231 | one pass of the main loop: the gated tick, then the keys, and the invariant is kept |
| Scenarios.FirstTick | src/main.cpp:141-148 | from the start, with the food elsewhere, one tick gives the body [(7,9),(6,9),(5,9)] and changes nothing else |
| Scenarios.RightEdgeEndsGame | src/main.cpp:160-167 | a head at x = 24 moving right crosses the edge and restarts the game stopped with score 0 |
| Scenarios.SelfCollisionEndsGame | src/main.cpp:178-185 | a five-segment snake turning down into its own body restarts the game stopped with score 0 |
| Scenarios.TwoTurnsBetweenTicksReverse | src/main.cpp:209-220 | moving right, UP and then LEFT in two frames between ticks are both accepted, and the next tick ends the game against the neck |

## Left out

- Rendering, the window, its icon, the colours and the drawing part of the main loop: these have no game logic.
- Audio and its setup and teardown in the game's constructor and destructor: side effects only.
- Loading the food's texture in its constructor, and the `printf` logging.
- `eventTriggered` and `GetTime`: the wall-clock comparison is an input `tickDue` of each frame. The timer is still updated while paused, and the model does not capture that.
- `IsKeyPressed`: the keys pressed in a frame are an input `Input`.
- `GetRandomValue`: it is the honest, fair oracle described above. Its distribution is not modelled.
- `Vector2` holds floats. Every value the game stores in one is a small integer, so cells are pairs of unbounded integers. The score never exceeds 622, so `int` overflow cannot occur and is not modelled.
- Controller.Game.Update: requires that a tick that eats leaves a board cell free beside the moved body. Eating on a full board sends the food's rejection loop into an endless search, which is not modelled. A tick on a full board that crosses an edge or hits the body is covered: the game over places the food beside the 3-cell initial body. `Tick` and `HandleFrame` carry the same condition for a due, unpaused tick.
- FoodEntity.Food.GenRandomPos: requires that a free cell is generated eventually, which is the fairness assumption on the oracle, rather than proving termination for every generator.
- The food's initial cell (5,6) is set but immediately overwritten by the constructor, so no contract mentions it.
