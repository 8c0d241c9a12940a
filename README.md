# Blobwar strategies in Dafny

Blobwar is an infection game in the style of Ataxx, played on an 8x8 board with permanent holes. A move goes from an
origin cell holding the mover's blob to an empty, non-hole destination at most two rows and two columns away:

- A *clone* (both coordinates change by at most one) keeps the origin.
- A *jump* empties the origin.
- Either way, the opponent's blobs on the eight cells around the destination change sides.

This project models the `Strategy` class of `strategy.h` and `strategy.cc`, and proves what its operations compute. The class is the move engine:

- `applyMove`;
- `estimateCurrentScore`, the blob difference;
- `computeValidMoves`.

It also has three strategies, which report their choice through the save callback `_saveBestMove`:

- greedy;
- minimax, of depth MAX_DEPTH = 4 in strategy.cc;
- fail-soft alpha-beta, of depth MAX_DEPTH_ALPHA_BETA = 5.

The model takes the search depth as a parameter of the strategy (`rootDepth`).

The project is organised in two layers.

- **Specification functions** on value boards (`seq<seq<int>>`, 8x8) live in modules `Boards`, `Applying`, `MoveGen`, `Greedy`, `Game`, `Minimax` and `Pruning`. Each loop of the C++ is written as a function of the loop index, and its properties are lemmas. The main results:
  - The move generator lists exactly the legal moves, once each, in (origin row, origin column, destination row, destination column) order.
  - A move changes exactly the destination, the origin of a jump, and the infected neighbours.
  - A move raises the mover's score by twice the greedy enemy count, plus one for a clone.
  - Minimax satisfies the max/min recurrence. Its last root save is the earliest move attaining the root value.
  - Alpha-beta agrees with minimax through its window. At the root, with the full `INT8_MIN..INT8_MAX` window, it returns the minimax value and makes exactly the same saves as minimax at the same depth.
- **The class `Strategies.Strategy`** holds the following:
  - the board it owns, as an `array2<int>`;
  - the hole mask;
  - the player;
  - a tag saying which of the three strategies it is, and the search depth;
  - the history `saves` of the moves passed to the save callback. The game plays the last one (`LastSaved`).

  Its methods mirror the C++ loops:
  - `ApplyMove` mutates an array in place.
  - `ComputeValidMoves` appends to a list.
  - The searches copy the board into a fresh array for every child, as `bidiarray new_blobs(blobs)` does.

  Each method is proved against the specification functions.

Both searches are stated over two rules passed as parameters, a move generator and a transition (module `Game`). The strategies instantiate them with the blobwar rules: `Rules` is `computeValidMoves` and `Play` is `applyMove`. The agreement theorem between alpha-beta and minimax therefore holds for any move generator and transition on 8x8 boards. The leaves are always scored by `estimateCurrentScore`, whose values lie in `-64..64`.

Module `Scenarios` works out the position with player 0 alone at (0, 0) and player 1 at (1, 1):

- The generator lists 7 moves there, the 3x3 corner window minus the two occupied cells (`Scenarios.CornerMoves`).
- The jump to (0, 2) infects (1, 1), because (1, 1) is diagonally adjacent to (0, 2) (`Scenarios.CornerJump`).

## Model

| member | source | states |
|---|---|---|
| `Boards.Score` | strategy.cc:33-47 | the static evaluation of a board lies in -64..64 |
| `Boards.ScoreCounts` | strategy.cc:33-47 | the evaluation is the number of blobs of the player minus the number of the opponent's; empty cells count for neither, and a hole counts by what it holds: nothing on a board with empty holes, which every move preserves (`AppliedKeepsHoles`) |
| `Boards.ScoreSwap` | strategy.cc:38-42 | evaluating for the other player negates the score |
| `Boards.CountSet` | strategy.cc:9 | writing one cell removes one occurrence of its old value and adds one of the new value, leaving all other counts as they were |
| `Boards.ScoreSet` | strategy.cc:9-12 | writing one cell moves the score by exactly the change of that cell's weight |
| `Boards.WeightsBound` | strategy.cc:36-44 | a scan of n cells moves the score by at most n either way |
| `Boards.WeightsSwap` | strategy.cc:38-42 | cell by cell, the weights for the two players are opposite |
| `Boards.WeightsAppend` | strategy.cc:36-44 | the score of two runs of cells scanned one after the other is the sum of their scores |
| `Boards.WeightsCount` | strategy.cc:38-42 | the weights of a run of cells add up to the player's blobs minus the opponent's blobs in it |
| `Applying.NeighborsAdjacent` | strategy.cc:6 | the eight offsets are exactly the directions to the adjacent cells |
| `Applying.NeighborsDistinct` | strategy.cc:6 | no offset is listed twice, so no neighbour is visited twice |
| `Applying.InfectAt` | strategy.cc:19-29 | one visit of the neighbour loop: an in-bounds, non-hole cell holding the opponent becomes the mover's; any other cell is left alone |
| `Applying.Infect` | strategy.cc:15-30 | the board after the neighbour loop has visited the first k offsets, in the order of strategy.cc:6 |
| `Applying.Applied` | strategy.cc:8-31 | applyMove: write the destination, empty the origin of a jump, then run the neighbour loop |
| `Applying.InfectCell` | strategy.cc:15-30 | after the first k neighbours, a cell has changed iff it is one of them, is not a hole and held the opponent; it then holds the mover |
| `Applying.AppliedCell` | strategy.cc:8-31 | after a legal move: the destination holds the mover; the origin is empty iff the move is a jump; an adjacent non-hole opponent cell holds the mover; every other cell, holes included, is unchanged |
| `Applying.AppliedKeepsHoles` | strategy.cc:23-25 | a move never writes a hole cell, so empty holes stay empty |
| `Applying.Enemies` | strategy.cc:74-95 | the enemy count over k neighbours is between 0 and k, so at most 8 |
| `Applying.EnemiesAgree` | strategy.cc:74-95 | the enemy count depends only on the cells around the destination |
| `Applying.InfectAtScore` | strategy.cc:19-29 | visiting one neighbour raises the mover's score by 2 iff it turns an enemy blob, and otherwise leaves it unchanged |
| `Applying.InfectUntouched` | strategy.cc:15-30 | the loop has not changed a neighbour before visiting it |
| `Applying.InfectStepScore` | strategy.cc:15-30 | each iteration of the infection loop gains twice what it adds to the enemy count |
| `Applying.InfectScore` | strategy.cc:15-30 | the infection loop raises the mover's score by twice the enemies it finds |
| `Applying.ScoreAfterMove` | strategy.cc:8-31 | a legal move raises the mover's score by twice the enemies around the destination, plus one for a clone |
| `MoveGen.RowTargets` | strategy.cc:58-63 | the innermost loop up to column ny: the free destinations of one row, in column order |
| `MoveGen.Targets` | strategy.cc:57-64 | the two destination loops up to row nx: the free destinations of the window, row by row |
| `MoveGen.OriginMoves` | strategy.cc:55-65 | one origin: its targets when it holds the player, nothing otherwise |
| `MoveGen.RowMoves` | strategy.cc:54-66 | the origin-column loop of one row, up to column oy |
| `MoveGen.MovesBefore` | strategy.cc:53-67 | the origin-row loop, up to row ox |
| `MoveGen.ValidMoves` | strategy.cc:49-70 | computeValidMoves: the moves its four loops push, in their order |
| `MoveGen.RowTargetsSpec` | strategy.cc:58-63 | the innermost loop emits, left to right, exactly the free (non-hole, empty) destinations of one row of the window |
| `MoveGen.TargetsSpec` | strategy.cc:57-64 | the destination loops emit exactly the free cells of the window, in increasing order |
| `MoveGen.WindowSpec` | strategy.cc:57-58 | the loop bounds `max(0, v-2)..min(7, v+2)` are exactly the on-board cells within two of v |
| `MoveGen.OriginMovesSpec` | strategy.cc:55-65 | an origin emits exactly its legal moves, in increasing order, and none unless it holds the player |
| `MoveGen.RowMovesSpec` | strategy.cc:54-66 | the first oy origins of a row emit exactly their legal moves, in increasing order |
| `MoveGen.MovesBeforeSpec` | strategy.cc:53-67 | the first ox origin rows emit exactly their legal moves, in increasing order |
| `MoveGen.ValidMovesSpec` | strategy.cc:49-70 | a move is generated iff it is legal: origin holds the player; destination in bounds, within two, not a hole, empty. The list is strictly increasing, so there are no duplicates |
| `MoveGen.ValidMovesLegal` | strategy.cc:49-70 | every generated move is legal |
| `MoveGen.ValidMovesUnique` | strategy.cc:53-58 | the loop order determines the list: any increasing list of exactly the legal moves is the generator's output |
| `MoveGen.SameIncreasing` | strategy.cc:53-58 | two strictly increasing lists with the same elements are equal |
| `Game.RulesChild` | strategy.cc:142-143 | every move a search plays is legal, and the child is applyMove's board |
| `Greedy.Scan` | strategy.cc:105-118 | the greedy loop after k candidates, from score 0 and the first move: a higher enemy count, or an equal one reached by a clone, takes over |
| `Greedy.Choice` | strategy.cc:97-121 | the greedy choice: nothing without a legal move, else the move the scan holds at the end |
| `Greedy.ScanSpec` | strategy.cc:105-118 | after k candidates the scan holds one with the largest enemy count. If a clone reaches that count it is the last such clone; otherwise it is the first candidate reaching it |
| `Greedy.ChoiceSpec` | strategy.cc:97-121 | greedy chooses nothing iff there is no legal move. Otherwise it chooses a legal move with the most enemies around its destination, with the tie-break that prefers the last clone |
| `Minimax.Value` | strategy.cc:125-170 | a minimax value lies in -64..64, inside the INT8 start values |
| `Minimax.ChildValue` | strategy.cc:142-144 | the value of the i-th child: the search one ply down on the board the move leads to, with the other side to move |
| `Minimax.Best` | strategy.cc:141-166 | once a child has been seen, the running best lies in -64..64 |
| `Minimax.BestSpec` | strategy.cc:141-166 | after k children the running best is their maximum (max node) or minimum (min node), and one of them attains it |
| `Minimax.ValueOfNode` | strategy.cc:132-169 | a max node is worth the largest child value, a min node the smallest, and some child attains it |
| `Minimax.Saves` | strategy.cc:125-170 | the moves a call of minmax passes to the save callback, in order: nothing at depth 0 or without moves, else its loop's |
| `Minimax.SavesUpTo` | strategy.cc:141-166 | the saves of the first k iterations: each child's own saves, then the child's move when a root max node sees a strict improvement |
| `Minimax.SavesBelowRoot` | strategy.cc:148-150 | a call below the root depth (MAX_DEPTH) saves nothing |
| `Minimax.SavesUpToBelowRoot` | strategy.cc:148-150 | the loop of a call below the root depth saves nothing |
| `Minimax.RootSavesUpTo` | strategy.cc:141-152 | at the root the first child is always saved. The last save is the earliest child attaining the running maximum |
| `Minimax.RootSavedNext` | strategy.cc:146-151 | at the root, one more child appends its move exactly when it beats the running best |
| `Minimax.FirstBestNext` | strategy.cc:146-151 | the earliest child attaining the running best passes to the new child exactly when the new child beats it |
| `Minimax.RootSavesStep` | strategy.cc:146-151 | one more root child keeps the first save and makes the last save the earliest child attaining the new best |
| `Minimax.EarliestBest` | strategy.cc:146-151 | the move a root max node settles on: the earliest legal move whose child has the node's minimax value |
| `Minimax.RootSaves` | strategy.cc:172-174 | minmax at the root saves nothing at depth 0 or without legal moves. Otherwise it first saves the first move, and its last save is the earliest move whose child has the root's minimax value |
| `Pruning.AlphaBeta` | strategy.cc:178-239 | alphabeta as a function of its window, returning its score and the moves it saves: the static score at depth 0 or without moves, else the max or min loop from INT8_MIN or INT8_MAX |
| `Pruning.MaxLoop` | strategy.cc:192-211 | the max loop from child i: a strictly better child is saved at the root depth; a maximum reaching beta returns at once; alpha rises to the maximum |
| `Pruning.MinLoop` | strategy.cc:221-237 | the min loop from child i: a minimum reaching alpha returns at once; beta falls to the minimum |
| `Pruning.BestMonotone` | strategy.cc:146-165 | the running maximum only rises and the running minimum only falls |
| `Pruning.WindowAgrees` | strategy.cc:178-239 | clamped into any window INT8_MIN <= alpha < beta <= INT8_MAX, alphabeta's score equals the minimax value |
| `Pruning.MaxLoopAgrees` | strategy.cc:192-211 | the max loop's invariant: with alpha = max(alpha0, m) and m < beta, the loop finishes with minimax's maximum as seen through the window, whether it cuts off or not |
| `Pruning.MinLoopAgrees` | strategy.cc:221-237 | the min loop's invariant, mirror image of the max loop's |
| `Pruning.QuietBelowRoot` | strategy.cc:198-200 | alphabeta below the root depth (MAX_DEPTH_ALPHA_BETA) saves nothing, whatever its window |
| `Pruning.MaxLoopQuiet` | strategy.cc:192-211 | the max loop of a call below the root saves nothing |
| `Pruning.MinLoopQuiet` | strategy.cc:221-237 | the min loop of a call below the root saves nothing |
| `Pruning.ScoreBound` | strategy.cc:178-239 | every score alphabeta returns, at any depth and for any window, lies in -64..64, inside the INT8 start values |
| `Pruning.MaxLoopBound` | strategy.cc:184-211 | the max loop returns a score in -64..64: m starts at INT8_MIN, below every score, and holds a child's score after the first child |
| `Pruning.MinLoopBound` | strategy.cc:213-237 | the min loop returns a score in -64..64: M starts at INT8_MAX, above every score, and holds a child's score after the first child |
| `Pruning.RootLoop` | strategy.cc:192-211 | at the root with beta = INT8_MAX no cut-off changes the outcome. The loop ends with minimax's value and completes minimax's save list |
| `Pruning.RootAgrees` | strategy.cc:241-243 | the root call with the full INT8 window returns the minimax value and saves exactly the moves minimax saves at the same depth, so at equal depths both strategies play the same move |
| `Scenarios.CornerMoves` | strategy.cc:53-63 | a lone blob in the corner next to an enemy has exactly seven moves, listed in loop order |
| `Scenarios.SingleMove` | strategy.h:63-66 | with a single legal move, greedy and both searches (at depth 1 or more) all save that move last, so the game plays it |
| `Scenarios.CornerClone` | strategy.cc:8-31 | the clone (0,0)->(0,1) keeps the origin and infects (1,1); the mover leads by 3 |
| `Scenarios.CornerJump` | strategy.cc:8-31 | the jump (0,0)->(0,2) empties the origin and infects the diagonal neighbour (1,1); the mover leads by 2 |
| `Scenarios.CornerEnemies` | strategy.cc:74-95 | one enemy lies around either destination of the corner position |
| `Scenarios.CornerScore` | strategy.cc:33-47 | the corner position is even |
| `Strategies.Decision` | strategy.h:63-66 | what computeBestMove passes to the save callback: the greedy choice, or the saves of the root search at the strategy's depth |
| `Strategies.DecisionSpec` | strategy.h:22-25 | the move the game uses after computeBestMove, the last one saved: none exactly when there is no legal move (or a search of depth 0); otherwise the greedy choice, or, for minimax and alpha-beta alike, the earliest legal move whose child has the root's minimax value |
| `Strategies.SourceDepths` | strategy.cc:3-4 | at the depths computeBestMove uses, MAX_DEPTH = 4 for minimax and MAX_DEPTH_ALPHA_BETA = 5 for alpha-beta, each saves a move exactly when the player has one, and its last save is the earliest root move whose child has the minimax value at that depth |
| `Strategies.Grid` | strategy.h:16 | the board an 8x8 array shows, cell for cell |
| `Strategies.GridSame` | strategy.h:33 | copying the cells copies the board |
| `Strategies.Strategy.constructor` | strategy.h:29-35 | the strategy owns a fresh copy of the caller's board and keeps the holes, the player and the search depth; nothing is saved yet |
| `Strategies.Strategy.Copy` | strategy.h:40-42 | the copy owns a fresh copy of the board, with the same holes, player and search depth, and has saved nothing |
| `Strategies.Strategy.SaveBestMove` | strategy.h:22-25 | a save appends the move to the history; several saves per turn are allowed |
| `Strategies.Strategy.ApplyMove` | strategy.cc:8-31 | on a legal move the array is rewritten in place to the board applyMove specifies (see AppliedCell) |
| `Strategies.Strategy.InfectStep` | strategy.cc:16-29 | one iteration of the neighbour loop performs one infection step on the array |
| `Strategies.Strategy.EstimateCurrentScore` | strategy.cc:33-47 | the double loop returns the board's score for the strategy's player |
| `Strategies.Strategy.ComputeValidMoves` | strategy.cc:49-70 | the given list comes back extended by exactly the generated moves; its old contents stay a prefix |
| `Strategies.Strategy.AppendRow` | strategy.cc:54-66 | the origin-column loop appends the moves of one origin row |
| `Strategies.Strategy.AppendTargets` | strategy.cc:57-64 | the destination loops append the moves of one origin |
| `Strategies.Strategy.CountEnemies` | strategy.cc:74-95 | countEnnemies returns the number of in-bounds, non-hole opponent cells around the destination on the strategy's board |
| `Strategies.Strategy.GreedyScan` | strategy.cc:105-118 | the scan over the legal moves returns the greedy choice |
| `Strategies.Strategy.GreedyBestMove` | strategy.cc:97-121 | greedy saves nothing without a legal move, otherwise saves exactly its choice once |
| `Strategies.Strategy.MinMax` | strategy.cc:125-170 | minmax returns the minimax value and saves exactly the moves of the minimax save list; the caller's array is untouched |
| `Strategies.Strategy.MaxNode` | strategy.cc:132-152 | the max branch returns the node's value: the static score without moves, else the maximum |
| `Strategies.Strategy.MaxChildren` | strategy.cc:141-152 | the max loop ends with the maximum of the children and the root saves |
| `Strategies.Strategy.MaxStep` | strategy.cc:141-151 | one max iteration advances best_score and the saves by one child |
| `Strategies.Strategy.MinMaxChild` | strategy.cc:142-144 | the search on a fresh copy of the board with the i-th move applied returns the child's value and appends exactly the child's saves |
| `Strategies.Strategy.MinNode` | strategy.cc:153-167 | the min branch returns the node's value: the static score without moves, else the minimum |
| `Strategies.Strategy.MinChildren` | strategy.cc:162-166 | the min loop ends with the minimum of the children |
| `Strategies.Strategy.MinStep` | strategy.cc:162-165 | one min iteration advances best_score by one child, saving only what the child saves |
| `Strategies.Strategy.AlphaBetaSearch` | strategy.cc:178-239 | alphabeta returns the score of the alpha-beta function and saves exactly its saves |
| `Strategies.Strategy.AlphaBetaMax` | strategy.cc:183-211 | the max branch returns the static score without moves, else the max loop's outcome |
| `Strategies.Strategy.AlphaBetaMaxChildren` | strategy.cc:192-211 | the max loop with its beta cut-off and rising alpha returns the loop function's score and saves |
| `Strategies.Strategy.AlphaBetaMaxStep` | strategy.cc:192-208 | one max iteration either cuts off with the final outcome or leaves the rest of the loop to reach it |
| `Strategies.Strategy.AlphaBetaChild` | strategy.cc:193-195 | the windowed search on a fresh copy of the board with the i-th move applied returns the child's score and appends exactly its saves |
| `Strategies.Strategy.AlphaBetaMin` | strategy.cc:212-238 | the min branch returns the static score without moves, else the min loop's outcome |
| `Strategies.Strategy.AlphaBetaMinChildren` | strategy.cc:221-237 | the min loop with its alpha cut-off and falling beta returns the loop function's score and saves |
| `Strategies.Strategy.AlphaBetaMinStep` | strategy.cc:221-234 | one min iteration either cuts off with the final outcome or leaves the rest of the loop to reach it |
| `Strategies.Strategy.ComputeBestMove` | strategy.h:63-66 | each strategy saves its decision on its own board, which it leaves unchanged: greedy its choice, minimax its root saves, alpha-beta (full window) its root saves, both at the strategy's depth. The move the game then uses, the last one saved, is the last of these, or the previous one when nothing was saved |

Proof helpers, without a row: the sequence lemmas of `Boards` (`ConcatEmpty`, `ConcatAssoc`, `ConcatShift`, `AppendEnds`, `ConcatStep`, `RowUpdate`, `FlattenUpdate`, `FlattenLength`, `RowsLength`); the unfolding lemmas `Applying.InfectNext`, `Game.RulesMoves`, `Minimax.BestNext`, `Minimax.SavesUpToNext` and `Minimax.StepSaves`; the facts about the order of moves `MoveGen.BeforeIrreflexive`, `MoveGen.BeforeAsymmetric` and `MoveGen.IncreasingConcat`; the definitions `Game.Play`, `Game.Rules`, `Strategies.Holds`, `Strategies.GridHolds` and `Strategies.Strategy.LastSaved`; and the corner-position helpers `Scenarios.FlattenAll` and `Scenarios.WeightsEmpty`.

## Left out

- The save callback `_saveBestMove` is a callback into the game loop. It is modelled by the history `saves` of the moves passed to it. The game loop that reads the last one is not part of this model.
- The copy constructor leaves `_saveBestMove` uninitialised. `Copy` starts with an empty history, and calling the missing callback is not modelled.
- `bidiarray`, `movement` and the SDL integer types of `common.h` are not part of this model. The board is an 8x8 `array2<int>` (a `seq<seq<int>>` in the specification), the hole mask an 8x8 `seq<seq<bool>>`, and a move a four-integer datatype.
- Player ids are limited to 0 and 1, the only values the game uses. The C++ compares cells with `(int) 1 - player` on an unsigned `Uint16`.
- Scores and counters are unbounded integers. Static scores and minimax values lie in -64..64 (`Boards.Score`, `Minimax.Value`), and so does every alpha-beta score, at any depth and for any window (`Pruning.ScoreBound`), so no score overflows `Sint32` or leaves the `INT8_MIN`/`INT8_MAX` start values.
- The hole mask is held by const reference in the C++. It is modelled as an immutable value, so aliasing with a mask the game changes between turns is not captured.
- `computeValidMoves` extends the caller's vector in place and returns it by reference. `ComputeValidMoves` takes the list as a value and returns the extended list, which every caller then reads, as each C++ call site reads its vector.
- `Game.Play` is total: on a move that is not legal it leaves the board unchanged. `applyMove` requires a legal move, and the searches only play generated moves (`Game.RulesChild`).
- The loops of `minmax`, `alphabeta` and `computeValidMoves` are split into one method per loop and one per iteration (`MaxChildren`/`MaxStep`, `AppendRow`, …). Each keeps the C++ statements in order.
- The search depths `MAX_DEPTH` and `MAX_DEPTH_ALPHA_BETA` are preprocessor constants of strategy.cc. The model takes the depth as the constructor argument `rootDepth` and keeps the C++ values as the constants `Strategies.MAX_DEPTH` and `Strategies.MAX_DEPTH_ALPHA_BETA`. The depth is a `nat`, where the C++ passes a `Uint8`; both values fit.
- `AlphaBetaStrategy` is not declared in `strategy.h`. It is modelled as the third kind of `Strategy`, next to greedy and minimax.
- No I/O, timing or concurrency takes part in these files.
