# Learn2Slither core in Dafny

Learn2Slither is a Snake game played by a tabular Q-learning agent. The
game runs on a 10 x 10 board that holds:

- a snake, which is a list of cells with the head first;
- two green apples, each of which grows the snake by one;
- one red apple, which shrinks the snake by one.

The agent sees four rays from the head: up, right, down and left. It picks
one of four actions epsilon-greedily from a Q table. A safety filter can
keep it from stepping into a wall or a body segment right next to the head.

This project models two modules:

- `board.dfy` (module `Board`) is the `Environment` class of
  `Board/environment.py`:
  - the snake, the apples, the game-over flag and the integer grid are
    fields of a Dafny class, and the methods update them in place;
  - the free-cell list that `random_empty_cell` draws from is the pure
    function `EmptyCells`;
  - `look_direction` keeps its loop and is proved against the pure
    function `Ray`.
- `agent.dfy` (module `Agent`) models the free functions of
  `agent/agent.py`:
  - the Q table is an object holding a `map` from states to rows of values;
    `init_state` and `update_q` update it;
  - `safe_actions_from_state` keeps its loop and is proved against
    `SafeActions`;
  - `choose_action` is a function whose random draws are parameters.

Randomness is passed in as parameters:

- `random.random()` is a value `u` in [0, 1);
- a `random.choice(xs)` is an index `pick`, and the element drawn is
  `xs[pick % |xs|]`, or `xs[pick]` where the list of free cells is concerned;
- `random.randint(...)` at the start of a game becomes the constructor
  arguments `x` and `y`.

Floating-point values are modelled as `real`.

The central invariant is `Board.Apart`: no snake segment, green apple or red
apple shares a cell with another one. As written, the source can break it
in two places, both listed under Findings:

- at the start, the two green apples can be drawn onto the same cell;
- when a green apple is eaten, its replacement can be drawn onto the cell
  the head is entering.

Each place is modelled twice. A member that follows the code as written
exhibits the broken layout. A corrected definition is proved to keep the
layout apart for every draw. The `Environment` class uses the corrected
definitions, so its constructor establishes `Apart` and every move
preserves it.

## Model

| member | source | states |
|---|---|---|
| Board.EmptyCells | Board/environment.py:47-54 | every listed cell is on the board and holds no snake segment, no green apple and not the red apple; every such cell is listed |
| Board.EmptyCellsOrdered | Board/environment.py:47-54 | the list is strictly in row-major order (y outer, x inner), so each free cell appears once |
| Board.RemoveFirst | Board/environment.py:77 | list.remove: the result is the list with its first occurrence of the cell cut out and the rest in order |
| Board.RemoveFirstOf | Board/environment.py:77 | removing an element keeps only elements of the list; from a list without duplicates it leaves no duplicates and no copy of the removed cell |
| Board.Environment.constructor | Board/environment.py:24-39 | the snake is (x,y),(x-1,y),(x-2,y) and the game is not over; the green apples follow the corrected draw (see Findings), and the red apple is drawn from the cells the greens leave free; the grid matches the board; everything is on the board and the layout is apart |
| Board.Environment.RandomEmptyCell | Board/environment.py:46-55 | the drawn cell is on the board and holds no segment and no apple |
| Board.Environment.GameOver | Board/environment.py:57-60 | sets the game-over flag and changes nothing else |
| Board.Environment.Move | Board/environment.py:64-104 | the cases are checked in this order: wall, green apple, red apple, self-collision, plain move; a wall or self-collision ends the game, returns false and leaves the board as it was; the other cases return true with the new snake, apples and flag each case gives; every placement stays on the board, and an apart layout stays apart |
| Board.Environment.EatGreen | Board/environment.py:76-80 | the eaten apple is removed and the head is prepended, so the snake grows by one; the replacement follows the corrected draw (see Findings): it comes from the cells left free once the head is in, and is appended; the grid is not redrawn; the layout stays apart |
| Board.Environment.EatRed | Board/environment.py:82-94 | the new red apple is drawn from the current free cells; the snake is the head plus the old snake with its last two cells popped, one shorter; the game ends exactly when the snake was one cell long; the grid is redrawn; the layout stays apart |
| Board.Environment.Advance | Board/environment.py:101-104 | the head is prepended and the tail popped, so the length is unchanged; the grid is redrawn; the layout stays apart |
| Board.Environment.UpdateGrid | Board/environment.py:106-117 | a fresh 10 x 10 grid whose cells hold 3 for the red apple, else 2 for a green apple, else 1 for a snake segment, else 0 |
| Board.Environment.CellSymbol | Board/environment.py:119-130 | the symbol is "W" exactly off the board, and "0" exactly on a free cell |
| Board.Environment.Ray | Board/environment.py:138-146 | the cells seen from a point along a direction end with the first "W" |
| Board.Environment.RayWallOnlyLast | Board/environment.py:138-146 | the loop stops at the first "W": no earlier element of a ray is "W" |
| Board.Environment.RayLength | Board/environment.py:138-146 | along a unit direction from a cell on the board, a ray is as long as the distance to the edge |
| Board.Environment.RayAvoidsHead | Board/environment.py:138-146 | along a unit direction, a ray that starts at or beyond the head never shows "H" |
| Board.Environment.SightShape | Board/environment.py:132-148 | vision starts with "H" and ends with its only "W"; along a unit direction the cells in between are "S", "G", "R" or "0", and from a head on the board the vision has distance-to-edge plus one entries |
| Board.Environment.LookDirection | Board/environment.py:132-148 | the loop's vision equals "H" followed by the ray from the head, with the shape SightShape states |
| Board.Environment.GetState | Board/environment.py:150-156 | the four visions in the order up, right, down, left |
| Board.AdvanceKeepsApart | Board/environment.py:101-104 | a head entering a free cell, followed by popping the tail, keeps the layout apart |
| Board.EatRedKeepsApart | Board/environment.py:82-94 | eating the red apple keeps the layout apart, whichever free cell the new red apple is drawn from |
| Board.EatGreenKeepsApart | Board/environment.py:76-80 | eating a green apple keeps the layout apart when the replacement avoids the new head |
| Board.ReplacementCanLandOnHead | Board/environment.py:76-79 | as written, the head cell is among the cells the replacement green apple can be drawn from, and that draw breaks the layout |
| Board.ReplacementGreen | Board/environment.py:78 | the corrected replacement apple is free with respect to the grown snake |
| Board.ReplacementGreenKeepsApart | Board/environment.py:76-80 | with the corrected replacement, the green-apple move keeps the layout apart for every draw |
| Board.InitialGreens | Board/environment.py:36 | as written: two green apples, each drawn from the free cells of the board with no apples |
| Board.InitialGreensCanCoincide | Board/environment.py:36 | for every starting snake, some draw puts both green apples on the same cell |
| Board.InitialGreensDistinct | Board/environment.py:36 | corrected: the second apple is drawn from the cells the first leaves free, so the two differ, are on the board and avoid the snake |
| Board.InitialLayoutApart | Board/environment.py:30-37 | with the corrected draw, the starting layout is apart for every choice |
| Agent.SafeAmong | agent/agent.py:22-27 | the list built after the first n loop steps holds exactly the safe actions below n, in increasing order |
| Agent.SafeActions | agent/agent.py:16-28 | the list is non-empty and increasing, with actions below 4; when some action is safe, an action is listed iff it is safe (no wall or body at distance 1); when none is safe, it is [0, 1, 2, 3] |
| Agent.SafeActionsFromState | agent/agent.py:16-28 | the loop returns SafeActions(state) |
| Agent.MaxOf | agent/agent.py:40 | max: a member of the values that is no smaller than any of them |
| Agent.IndicesOf | agent/agent.py:41 | exactly the indices below n whose value is v, in increasing order |
| Agent.Best | agent/agent.py:41 | best is non-empty and increasing, and holds exactly the indices of the maximal values |
| Agent.Keep | agent/agent.py:45 | best_safe holds exactly the elements of best that are safe, in order |
| Agent.Choice | agent/agent.py:36 | random.choice returns an element of its list |
| Agent.Explore | agent/agent.py:33-37 | an exploring action is below 4, and is a safe action when the filter is on |
| Agent.Exploit | agent/agent.py:39-48 | an exploiting action has the maximal Q value, and is safe when the filter is on and some maximal action is safe |
| Agent.ChooseAction | agent/agent.py:31-48 | when u < epsilon: an action below 4, a safe one under the filter; otherwise: an action of maximal value, a safe one when the filter is on and a safe maximal action exists |
| Agent.GreedyPicksUniqueBest | agent/agent.py:33-48 | with epsilon at most 0, a strictly best action is always chosen |
| Agent.GreedyAvoidsDanger | agent/agent.py:43-46 | greedy play under the filter picks a safe action whenever some safe action has maximal value |
| Agent.ChosenActionInRange | agent/agent.py:31-48 | with four values per row, every chosen action is one of 0..3 |
| Agent.WithState | agent/agent.py:10-13 | the state is added with [0, 0, 0, 0] when missing; every existing row is untouched and no other key is added |
| Agent.WithStateIdempotent | agent/agent.py:10-13 | initialising a state twice is the same as once |
| Agent.WithStateKeepsWellFormed | agent/agent.py:10-13 | initialising keeps every row at four values |
| Agent.InitState | agent/agent.py:10-13 | the table becomes WithState of the old table |
| Agent.Updated | agent/agent.py:51-55 | only q[state][action] changes; it moves a fraction alpha of the way towards reward + gamma * max(q[next_state]), and that max is taken before the write, even when next_state is state |
| Agent.UpdateQ | agent/agent.py:51-55 | the table becomes Updated of the old table |
| Agent.UpdatedKeepsWellFormed | agent/agent.py:51-55 | the update keeps every row at four values |
| Agent.TdValueBetween | agent/agent.py:55 | with alpha in [0, 1], the new value lies between the old value and the target |
| Agent.UpdateWithoutLearning | agent/agent.py:55 | alpha = 0 leaves the table unchanged |
| Agent.UpdateAtTarget | agent/agent.py:55 | an entry already equal to its target is a fixed point |
| Agent.UpdateToTarget | agent/agent.py:55 | alpha = 1 sets the entry to the target |

## Left out

- Console output is not modelled: the `print` calls in `GameOver`, `move` and `display_grid`. `display_grid` itself only prints after `update_grid`.
- Training, evaluation and the game loop are not part of this model: the modes, saving and loading the table with pickle, rendering and the command line.
- The agent's state is modelled on the format its doc comment gives (agent/agent.py:17-20): one `(symbol, distance)` pair per action. No code in the program builds such pairs. The modes pass `get_state`'s four rays straight to `choose_action` (modes/game_modes.py:48-51, 97-104 and 194-197). With the safety filter on, the unpacking at agent/agent.py:24 cannot take a ray of more than two symbols, and on a 10 x 10 board some ray is always longer. The model does not join `get_state` to the agent for that reason.
- Rewards are not modelled because the program computes none. `move` returns only a flag (Board/environment.py:64-104), while modes/game_modes.py:54 and :107 unpack a reward from it and pass it arguments it does not take.
- Floating-point arithmetic is modelled as exact `real` arithmetic, so rounding in `update_q` is not captured.
- Randomness is passed in as draws.
  - A `random.choice` on an empty list raises an error in the source. Here the draw index must be below the list's length, and that precondition stands in for the error.
  - A full board therefore has no modelled move that eats an apple.
- Board.Environment.Move: requires a non-empty snake. In the source a move on an empty snake fails when it reads `snake[0]`, and the game is already over by then. In the green-apple case it draws the replacement after the head is in, following the correction in Findings, not before as written.
- Board.Environment.LookDirection: requires a non-zero direction. With (0, 0) the source loops forever; `get_state` only passes the four unit directions.
- Board.Environment.CellSymbol: requires a non-empty snake for cells on the board, because the source reads `snake[0]` there.
- Python's negative list indices are not modelled; no path through the core uses them.
- The Q rows are modelled as values inside the map, so aliasing between rows is not captured. No code in the core shares a row between two states.
- Board.Environment.constructor: uses the corrected initial draw of Findings, not the draw as written. The as-written draw is `Board.InitialGreens`.
- Board.Environment.EatGreen: draws the replacement after the head is in, following the correction in Findings, not before as written. The as-written draw is exhibited by `Board.ReplacementCanLandOnHead`.
- The green-apple branch of `move` does not redraw the grid, and the model keeps that. The grid is therefore only guaranteed to match the board after the other branches. The rays read the snake and the apples, not the grid.

## Findings

| source | as written | input that shows it | evidently intended | confidence | as-written member | corrected member |
|---|---|---|---|---|---|---|
| Board/environment.py:36 | both green apples are drawn while `green_apples` is still empty, so they are drawn from the same list of free cells | any start where both draws pick the same index, e.g. index 0 twice | two distinct green apples | not executed | Board.InitialGreensCanCoincide | Board.InitialLayoutApart |
| Board/environment.py:76-79 | the replacement green apple is drawn before the new head is inserted, so the cell the head is entering is still free | a head entering a green apple's cell, with the draw picking that same cell, which is always on the list | the replacement drawn from cells free after the head moves in, so no apple lies under the snake | not executed | Board.ReplacementCanLandOnHead | Board.ReplacementGreenKeepsApart |
