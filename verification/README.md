# Depth-limited adversarial search for Connect-4, in Dafny

This project models the search core of a Connect-4 agent: three agents that pick a
move by searching the game tree a fixed number of plies deep and scoring the
frontier with a static evaluation function.

- `MinimaxAgent` runs plain minimax. The agent (turn 1) maximises and the opponent minimises.
- `AlphaBetaAgent` runs minimax with fail-soft alpha-beta pruning.
- `ExpectimaxAgent` maximises on its own plies. On the opponent's plies it takes the
  uniform average of the children, because the opponent is assumed to move at random.

The game itself is abstracted as a finite tree (`GameTree.Tree`). Each node records:

- whose turn it is;
- whether `is_terminal()` holds;
- the score the evaluation function gives the state (the default
  `scoreEvaluationFunction` returns `getScore()`);
- its successors in legal-action order, each paired with the action that produces it.

A successor's turn is already the one the search sees after `switch_turn`.
Scores live in `ExtReals.ExtReal`, which adds the `float('-inf')` and `float('inf')` seeds to the reals.

Modules:

- `ExtReals`: extended reals, with Python's `<`, `max`, `min`, `+` and scaling.
- `Wrappers`: `Option` (for `None`) and `Result` (for the `ZeroDivisionError` raised by expectimax).
- `GameTree`: the tree; `WellFormed` (non-terminal states have a move); `Truncate` (the tree cut after n plies).
- `Selection`: the strict-comparison loops that pick the best child, and the reference max/min they are proved against.
- `Minimax`: `rb_minimax` and `MinimaxAgent.getAction` (`Minimax.GetAction`).
- `AlphaBeta`: `alpha_beta` with its two loops, and `AlphaBetaAgent.getAction` (`AlphaBeta.GetAction`).
- `Pruning`: the fail-soft window theorem relating `alpha_beta` to `rb_minimax`, and agreement of the two agents at the root.
- `Expectimax`: `expectimax` and `ExpectimaxAgent.getAction` (`Expectimax.GetAction`).
- `Scenarios`: small concrete games, including one in which a subtree is provably never searched.

Behaviours of the code worth knowing:

- A non-terminal state with no legal move is not an error for minimax or alpha-beta.
  A maximising ply returns `-inf` and a minimising ply `+inf`, with no action.
  Only an expectimax chance ply fails, because `1 / len(children)` divides by zero.
- When every child of a maximising ply scores `-inf`, minimax and expectimax choose no action (`None`).
  The alpha-beta root then returns action `0`.
- The alpha-beta root never narrows its window. Every root child is searched with `(-inf, +inf)`.
- The alpha-beta root always expands the root, even a terminal one.
  It searches the children at `depth - 1`, which is `-1` (an unbounded search) when the configured depth is 0.
- An expectimax chance ply reports the action of its last child, which is the leftover loop variable.

## Model

| member | source | states |
|---|---|---|
| ExtReals.Max | multiAgents.py:101 | `max` returns one of its arguments and bounds both |
| ExtReals.Min | multiAgents.py:111 | `min` returns one of its arguments and is below both |
| ExtReals.Plus | multiAgents.py:148 | `value += v` is `-inf` exactly when an operand is `-inf` and `+inf` exactly when one is `+inf`; finite operands add |
| ExtReals.Scale | multiAgents.py:149 | multiplying by a positive probability keeps `-inf`, keeps finiteness and scales finite values |
| Selection.SeqMaxIsMaximum | multiAgents.py:50-57 | the reference maximum bounds every child score and is attained unless it is the `-inf` seed; it is `-inf` for no children |
| Selection.SeqMinIsMinimum | multiAgents.py:59-66 | the reference minimum is below every child score and is attained unless it is the `+inf` seed; it is `+inf` for no children |
| Selection.ScanMax | multiAgents.py:51-56 | the `cur_max < value` loop, resumed after any prefix, ends with the maximum and the first child attaining it; no child is chosen exactly when the result is `-inf` |
| Selection.ScanMin | multiAgents.py:60-65 | the `cur_min > value` loop, resumed after any prefix, ends with the minimum and the first child attaining it; no child is chosen exactly when the result is `+inf` |
| Selection.FirstMax | multiAgents.py:50-57 | a maximising ply returns the maximum child score and the first child attaining it (ties go to the earlier child), or no child when the maximum is `-inf` |
| Selection.FirstMin | multiAgents.py:59-66 | a minimising ply returns the minimum child score and the first child attaining it, or no child when the minimum is `+inf` |
| GameTree.Truncate | multiAgents.py:41 | cutting the tree after n plies keeps turn, score and actions, and marks a node terminal when it was already terminal or n is 0 |
| GameTree.TruncateCutsEveryLevel | multiAgents.py:41 | below the root each successor is cut the same way with one ply fewer, so every path is cut exactly n plies down |
| Minimax.BaseCase | multiAgents.py:41-42 | at a terminal state or depth 0 the result is `(evaluation, None)`, whatever the children are |
| Minimax.MaxPly | multiAgents.py:49-57 | a turn-1 ply scores the largest child score at `depth - 1` and chooses the first child attaining it; with no children it returns `(-inf, None)` |
| Minimax.MinPly | multiAgents.py:58-66 | a turn-0 ply scores the least child score at `depth - 1` and chooses the first child attaining it; with no children it returns `(+inf, None)` |
| Minimax.WellFormedIsFinite | multiAgents.py:38-66 | if every non-terminal state has a move, every score is finite and every expanded state gets an action |
| Minimax.DepthCountsPlies | multiAgents.py:41-66 | each ply costs one unit of depth whoever moves: searching `depth` plies equals an unbounded search of the tree cut after `depth` plies |
| AlphaBeta.BaseCase | multiAgents.py:93-94 | at a terminal state or depth 0 `alpha_beta` returns the evaluation, whatever the window and the children are |
| AlphaBeta.MaxStep | multiAgents.py:101-105 | one max-ply step folds the child into the best score; it cuts off exactly when the best exceeds beta; alpha never falls, stays at least the best score, and stays at most beta when no cutoff happens |
| AlphaBeta.MinStep | multiAgents.py:111-114 | one min-ply step folds the child into the best score; it cuts off exactly when the best falls below alpha; beta never rises, stays at most the best score, and stays at least alpha when no cutoff happens |
| Pruning.Window | multiAgents.py:92-115 | for alpha <= beta, a minimax score v in [alpha, beta] is returned exactly; if v < alpha the result r satisfies v <= r < alpha; if v > beta then beta < r <= v |
| Pruning.MaxStepKeeps | multiAgents.py:99-105 | one max-ply child either triggers a cutoff whose value lies above beta and at most that child's minimax score, or keeps the ply's invariant |
| Pruning.MinStepKeeps | multiAgents.py:109-114 | one min-ply child either triggers a cutoff whose value lies below alpha and at least that child's minimax score, or keeps the ply's invariant |
| Pruning.MaxLoopWindow | multiAgents.py:97-106 | the max-ply loop, entered with its invariant, returns a fail-soft answer for the largest child score |
| Pruning.MinLoopWindow | multiAgents.py:107-115 | the min-ply loop, entered with its invariant, returns a fail-soft answer for the least child score |
| Pruning.OpenWindow | multiAgents.py:92-115 | for alpha <= beta: alpha < v < beta gives v, v <= alpha gives a result <= alpha, and v >= beta gives a result >= beta |
| Pruning.FullWindow | multiAgents.py:82-86 | searched with the window (-inf, +inf), `alpha_beta` returns exactly the minimax score |
| Pruning.DepthCountsPlies | multiAgents.py:92-115 | each ply of `alpha_beta` costs one unit of depth whoever moves: with the full window, searching `depth` plies equals an unbounded search of the tree cut after `depth` plies |
| Pruning.SameRootAction | multiAgents.py:75-90 | at a non-terminal turn-1 root with depth other than 0, `AlphaBetaAgent` returns minimax's action, or 0 when minimax chooses none |
| Pruning.WellFormedSameRootAction | multiAgents.py:75-90 | when the game model keeps its contract, both agents return the same action at such a root |
| Expectimax.Sum | multiAgents.py:143-148 | the running sum of child scores never reaches `+inf`; it is `-inf` exactly when some child scores `-inf` |
| Expectimax.Mean | multiAgents.py:144-149 | `value * (1 / n)` is `-inf` exactly when the sum is, and otherwise equals the sum divided by n |
| Expectimax.Expectimax | multiAgents.py:124-149 | expectimax never produces `+inf` |
| Expectimax.ChildScores | multiAgents.py:145-148 | the collected scores have one entry per child and none is `+inf` |
| Expectimax.ChildScoresSpec | multiAgents.py:135-148 | the child loop fails exactly when some child's search fails, and otherwise holds each child's score in order |
| Expectimax.MeanWithinRange | multiAgents.py:142-149 | the average lies between the least and the largest child score, and is `-inf` exactly when a child scores `-inf` |
| Expectimax.BaseCase | multiAgents.py:127-128 | at a terminal state or depth 0 the result is `(evaluation, None)`, whatever the children are |
| Expectimax.MaxPly | multiAgents.py:133-141 | a turn-1 ply succeeds exactly when every child search does; it then scores the largest child score and chooses the first child attaining it, as minimax does |
| Expectimax.ChancePly | multiAgents.py:142-149 | a turn-0 ply succeeds exactly when it has children and every child search succeeds; it then scores their exact mean, which lies between their least and largest scores, and its action is the last child's |
| Expectimax.ErrorIffDeadEnd | multiAgents.py:142-147 | the search fails exactly when it expands a turn-0 state with no legal action |
| Expectimax.WellFormedIsFinite | multiAgents.py:124-149 | if every non-terminal state has a move, the search succeeds, every score is finite and every expanded state gets an action |
| Expectimax.DepthCountsPlies | multiAgents.py:127-147 | each ply costs one unit of depth whoever moves, as for minimax |
| Scenarios.ThreeLeavesPickBest | multiAgents.py:32-152 | a depth-1 turn-1 root over leaves scoring 3, 5 and 1: all three agents choose the action leading to 5 |
| Scenarios.TwoPlyPicksSecond | multiAgents.py:32-90 | the two-ply game max(min(2, 8), min(6, 6)) scores 6 and both minimax and alpha-beta choose the second action |
| Scenarios.MinTieGoesToFirst | multiAgents.py:63-65 | equal scores at a minimising ply: the first child is chosen |
| Scenarios.MaxTieGoesToFirst | multiAgents.py:54-56 | equal scores at a maximising ply: the first child is chosen |
| Scenarios.ChanceAverage | multiAgents.py:142-149 | a chance ply over leaves v1, v2 and v3 scores exactly (v1 + v2 + v3) / 3 |
| Scenarios.ChanceWithoutMoves | multiAgents.py:144 | a chance ply with no legal action fails instead of scoring |
| Scenarios.PrunedSubtreeIsIgnored | multiAgents.py:108-113 | once a min ply sees 2, below alpha = 3, its remaining child is never searched: `alpha_beta` scores that ply 2 whatever the child holds, while minimax scores it 1 when the child is a leaf scoring 1; the root scores 3 either way |

## Left out

- The concrete `connect4.GameState` is not part of this model. This covers legal moves, successors, the terminal test, the score, `switch_turn` and `pick_best_move`. The game tree stands in for it, and each successor already carries the turn that `switch_turn` gives it.
- `BestRandom.getAction` is not modelled: it only delegates to `pick_best_move`, which is not part of this model.
- `MultiAgentSearchAgent.__init__` is not modelled. It looks up the evaluation function by name through reflection and parses the depth string. The evaluation enters the model as each node's score, and the depth as an integer parameter.
- `probability = 1 / len(children)` (multiAgents.py:144) is read as Python 3 true division. Under Python 2 integer division it would be 0 for two or more children, and `Expectimax.Mean` would not model it.
- Float rounding is not modelled. Scores are exact reals, so `value * probability` is the exact mean.
- ExtReals.Plus: `inf + -inf` (NaN) is excluded by the precondition. `Expectimax.Expectimax` proves that `+inf` never arises in that search, so the case cannot occur. This relies on static scores being finite: if the evaluation returned `inf` or `-inf`, a chance ply could compute `inf + -inf`.
- Pruning.SameRootAction: it assumes a non-terminal turn-1 root and a depth other than 0. At a terminal root, or at depth 0, the alpha-beta root still searches the children (at depth -1), but minimax does not. The model computes both cases faithfully.
- `alpha_beta` asks for `getLegalActions(self.index)` at every node, while minimax asks for the moves of the player to move. In the tree the moves belong to the node, so the two coincide.
- Every successor is built with `generateSuccessor(self.index, action)` (multiAgents.py:48, 78, 96, 132), that is with player 1's index even on turn-0 plies. The tree takes each child to be the state reached when the player to move makes that move, so it assumes `generateSuccessor` gives the mover's successor whatever index it is passed.
- Whether deeper searches choose better moves against a fixed opponent is not modelled. It is a statement about play against an opponent policy, not about the search code.
