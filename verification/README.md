# Crossword CSP solver and tic-tac-toe minimax, in Dafny

This project models two parts of a collection of AI exercises.

- **The crossword generator** (`crossword/generate.py`, class `CrosswordCreator`).
  Each slot of the grid is a variable with a length. Each variable has a domain: a set of candidate words. The solver runs in four stages:
  1. Node consistency drops the words of the wrong length.
  2. `revise` and AC-3 drop the words that have no letter-compatible partner in a crossing slot.
  3. Backtracking search assigns one variable at a time, with the assignment dict updated in place.
  4. Two heuristics guide the search:
     - minimum remaining values with a degree tie-break, to choose the next variable;
     - least-constraining value, to order that variable's words.
- **Tic-tac-toe** (`tictactoe/tictactoe.py`): whose turn it is, the legal moves, the successor board, the winner test, the end of the game, its utility, and exhaustive minimax.

Files:

- `wrappers.dfy`, module `Wrappers`: `Option`, which stands for Python's `None`.
- `crossword.dfy`, module `Crossword`: the puzzle the solver is given.
  - Its parts are slot variables, `overlaps` and the word list.
  - `WellFormed` holds what the solver assumes of the puzzle:
    - every length is positive;
    - there is an overlap entry for each ordered pair of distinct variables;
    - overlap indices lie inside both words;
    - `overlaps[(y, x)]` is the swap of `overlaps[(x, y)]`.
  - `crossword/crossword.py` is not part of this model. Only the interface that `generate.py` uses is modelled, from that use.
- `generate.dfy`, module `Generate`. It has two halves:
  - Functions and predicates on values: `NodeFilter`, `Revised`, `ArcConsistent`, `Consistent`, `AssignmentComplete`, `IsSolution` and `RuledOut`. They say what each stage computes.
  - The imperative solver: class `CrosswordCreator`.
    - Its field `domains` is changed in place by `EnforceNodeConsistency`, `Revise` and `AC3`.
    - Each of those methods is proved equal to, or bounded by, those functions.
    - `Backtrack` inserts into and deletes from the `entries` of a shared `Assignment` object.
    - The end-to-end contract is on `Solve`. `Solve` returns a solution drawn from the original domains, and returns `None` exactly when no such solution exists.
- `tictactoe.dfy`, module `TicTacToe`. The board is a value, a sequence of three rows.
  - `EMPTY`, which is Python's `None`, is the cell `Empty`. `Empty` also stands for "no winner".
  - The folds start from `-math.inf` and `math.inf`. These are the `NegInf` and `PosInf` constructors of `Score`.

Python iterates sets and dicts in no fixed order. The models handle this in two ways:

- The crossword methods pick elements with `:|`. Their contracts hold for every iteration order.
- The tic-tac-toe folds visit cells in row-major order.
  - `MaxValue` and `MinValue` do not depend on that order.
  - `Minimax` returns the first optimal action in that order. Its contract only says the action is optimal.

## Model

| member | source | states |
|---|---|---|
| Crossword.Neighbors | crossword/generate.py:146-149 | the neighbours of `v` are other variables of the puzzle that cross `v`; `v` is never its own neighbour |
| Crossword.NeighborsSymmetric | crossword/generate.py:157-158 | `y` is a neighbour of `x` exactly when `x` is a neighbour of `y`. This is what makes re-queuing the arcs into `x` enough |
| Generate.NodeFilter | crossword/generate.py:96-108 | node filtering keeps every variable and only shrinks each domain |
| Generate.NodeFilterSound | crossword/generate.py:96-108 | after the filter every word has its variable's length, and every removed word had a different length |
| Generate.NodeFilterIdempotent | crossword/generate.py:96-108 | enforcing node consistency a second time changes nothing |
| Generate.CrosswordCreator.constructor | crossword/generate.py:8-16 | every variable of the puzzle starts with the whole word list as its domain |
| Generate.CrosswordCreator.EnforceNodeConsistency | crossword/generate.py:96-108 | the collect-then-delete loops leave `domains` equal to `NodeFilter` of the old domains |
| Generate.ReviseMakesArcConsistent | crossword/generate.py:110-133 | after `revise(x, y)` every word of `x` has a letter-compatible partner in `y` |
| Generate.ReviseRemovesUnsupported | crossword/generate.py:123-131 | a word of `x` is removed exactly when no word of `y` agrees with it at the overlap |
| Generate.ReviseKeepsSupporters | crossword/generate.py:123-131 | `revise(x, y)` never removes a word that supports a word of `y`, so a consistent arc `(y, x)` stays consistent |
| Generate.ReviseKeepsSolutions | crossword/generate.py:123-131 | `revise` removes no word that belongs to a solution drawn from the current domains |
| Generate.Revised | crossword/generate.py:119-131 | the effect of `revise(x, y)` on the domains: every variable is kept, `x` only loses words, and every other domain is unchanged |
| Generate.CrosswordCreator.Revise | crossword/generate.py:110-133 | the new domains are `Revised` of the old ones: unchanged when the overlap is `None`, otherwise `x` keeps exactly its supported words and every other domain stays the same; the result is true exactly when `domains[x]` changed |
| Generate.CrosswordCreator.AllArcs | crossword/generate.py:144-150 | the initial queue holds exactly the arcs `(v, n)` with `n` a neighbour of `v`, each once |
| Generate.CrosswordCreator.RequeueArcsInto | crossword/generate.py:157-158 | the queue is extended at its end with exactly the arcs `(z, x)` for `z` in `neighbors(x) - {y}`, each once |
| Generate.AC3Step | crossword/generate.py:151-158 | one pop-revise-requeue step keeps the invariant "every arc not in the queue is consistent" |
| Generate.DomainPairsShrink | crossword/generate.py:154-158 | a revision that removes a word strictly shrinks the set of (variable, word) pairs, which is the termination measure of AC-3 |
| Generate.CrosswordCreator.AC3 | crossword/generate.py:135-159 | domains only shrink and stay node-consistent; no solution is lost; `False` means some domain is empty (the converse does not hold); `True` from the full queue means every arc is consistent; `True` from a given queue means the same, provided every arc outside that queue was consistent on entry |
| Generate.AssignmentComplete | crossword/generate.py:161-171 | true exactly when the keys are the puzzle's variables and every word is non-empty |
| Generate.ValuesCard | crossword/generate.py:178-180 | a map has as many distinct values as keys exactly when no two keys share a word. This justifies the `len(set(values))` test |
| Generate.Consistent | crossword/generate.py:173-190 | true exactly when the words are pairwise distinct, each word has its variable's length, and every two crossing variables agree on the shared letter |
| Generate.CompleteAndConsistentIsSolution | crossword/generate.py:248-249 | a complete and consistent assignment is exactly a solution |
| Generate.SolutionPartsConsistent | crossword/generate.py:251-252 | every part of a solution is consistent, so pruning an inconsistent partial assignment loses no solution |
| Generate.IncompleteLeavesVariable | crossword/generate.py:248-250 | a consistent assignment that is not complete leaves a variable unassigned, so the variable selection can always pick one |
| Generate.NodeFilterKeepsSolutions | crossword/generate.py:96-108 | node filtering removes no word of a solution |
| Generate.CrosswordCreator.SelectUnassignedVariable | crossword/generate.py:214-236 | the returned variable is unassigned, has the fewest remaining words among unassigned variables, and has the most neighbours among those tied on that count |
| Generate.CrosswordCreator.FewestWords | crossword/generate.py:222-225 | the first variable after sorting by domain size has a domain no larger than any other |
| Generate.CrosswordCreator.WithDomainSize | crossword/generate.py:226-231 | the list holds exactly the unassigned variables whose domain has the minimum size, each once |
| Generate.CrosswordCreator.MostNeighbors | crossword/generate.py:232-234 | the first variable after sorting by degree, largest first, has the most neighbours in the list |
| Generate.CrosswordCreator.CountRuledOut | crossword/generate.py:201-205 | the counter ends as the number of unassigned neighbours whose domain contains the word |
| Generate.CrosswordCreator.RuledOutCounts | crossword/generate.py:199-206 | the dict maps every word of the domain, and nothing else, to its ruled-out count |
| Generate.ListKeys | crossword/generate.py:207 | the list of dict entries holds every key exactly once |
| Generate.SortByKey | crossword/generate.py:208 | sorting by count gives a permutation that is in ascending order of count |
| Generate.CrosswordCreator.OrderDomainValues | crossword/generate.py:192-212 | the result is a permutation of `domains[var]` in ascending order of how many unassigned neighbours would lose the word |
| Generate.NoSolutionTakesStep | crossword/generate.py:250-256 | a word whose placement leads to no solution joins the words already ruled out for the variable |
| Generate.NoSolutionTakesAll | crossword/generate.py:257 | once every word of the chosen variable is ruled out, the partial assignment extends to no solution |
| Generate.InconsistentExtendsToNothing | crossword/generate.py:252 | skipping an inconsistent placement loses no solution |
| Generate.CrosswordCreator.Backtrack | crossword/generate.py:238-257 | a returned mapping is the shared dict itself; it is a solution drawn from the domains and extends the entry assignment. On `None` the dict is restored and no solution drawn from the domains extends it |
| Generate.CrosswordCreator.TryValues | crossword/generate.py:250-257 | the loop over ordered words: each word is inserted, searched on when consistent, and deleted again; the outcome is as for `Backtrack` |
| Generate.CrosswordCreator.Solve | crossword/generate.py:88-94 | the domains left behind are node-consistent and only shrank, and every arc is consistent unless some domain is empty; a returned mapping is a solution whose words come from the original domains; `None` means that no such solution exists; a returned solution is also drawn from the pruned domains, so an empty domain forces `None` |
| Generate.Assignment.constructor | crossword/generate.py:94 | the dict handed to the search starts empty; `Backtrack` then updates that one object in place |
| TicTacToe.InitialState | tictactoe/tictactoe.py:13-19 | the start board is a 3x3 board |
| TicTacToe.InitialStateFacts | tictactoe/tictactoe.py:13-19 | on the start board `X` moves, there is no winner, the game is not over, and there are nine actions |
| TicTacToe.Player | tictactoe/tictactoe.py:22-35 | `X` moves exactly when `X` and `O` occur equally often, and `O` otherwise |
| TicTacToe.Actions | tictactoe/tictactoe.py:38-49 | the actions are exactly the in-bounds positions of empty cells |
| TicTacToe.ActionsCount | tictactoe/tictactoe.py:38-49 | there are as many actions as empty cells |
| TicTacToe.Result | tictactoe/tictactoe.py:52-64 | a move succeeds exactly for an available action. The new board holds the mover's mark at the action, equals the old board elsewhere, and has one empty cell fewer. Any other action is the error |
| TicTacToe.ResultAlternates | tictactoe/tictactoe.py:52-64 | from a balanced position a legal move stays balanced, adds one mark of the mover, and passes the turn |
| TicTacToe.WinnerLoop | tictactoe/tictactoe.py:73-79 | a mark reported by the row and column loop, from index `i` on, fills a whole row or column at some index `k >= i` |
| TicTacToe.Winner | tictactoe/tictactoe.py:67-87 | a reported winner fills a row, a column or a diagonal |
| TicTacToe.WinnerFindsLine | tictactoe/tictactoe.py:67-87 | if no row and no column is entirely empty, a full line of a mark is always reported |
| TicTacToe.WinnerMissesLine | tictactoe/tictactoe.py:73-79 | a concrete board with an empty first row and a full row of `X` below it: the loop stops at the empty row, so no winner is reported and the game goes on |
| TicTacToe.Terminal | tictactoe/tictactoe.py:90-100 | the game is over exactly when no action is left or `winner` reports a mark |
| TicTacToe.NonTerminalHasAction | tictactoe/tictactoe.py:90-100 | a game that is not over has an available action |
| TicTacToe.Utility | tictactoe/tictactoe.py:103-113 | the utility lies in {-1, 0, 1}; it is 1 exactly when `X` wins and -1 exactly when `O` wins |
| TicTacToe.MaxValue | tictactoe/tictactoe.py:138-144 | the value is finite and lies in {-1, 0, 1} on every board. The recursion ends because each move fills a cell |
| TicTacToe.MinValue | tictactoe/tictactoe.py:147-153 | as for `MaxValue` |
| TicTacToe.MaxOver | tictactoe/tictactoe.py:141-144 | the `max` fold over the actions stays at `-inf` only when it started there and no action was visited; otherwise it lies in {-1, 0, 1} |
| TicTacToe.MinOver | tictactoe/tictactoe.py:150-153 | the `min` fold over the actions stays at `inf` only when it started there and no action was visited; otherwise it lies in {-1, 0, 1} |
| TicTacToe.MaxOverIsMaximum | tictactoe/tictactoe.py:141-143 | the `max` fold is at least its start value, bounds the value of every visited action, and is its start value or one of those values |
| TicTacToe.MinOverIsMinimum | tictactoe/tictactoe.py:150-152 | the same for the `min` fold |
| TicTacToe.MaxValueIsBestMove | tictactoe/tictactoe.py:138-144 | on a board that is not over, `max_value` is the largest `min_value` over the successors, and some action reaches it |
| TicTacToe.MinValueIsBestMove | tictactoe/tictactoe.py:147-153 | on a board that is not over, `min_value` is the smallest `max_value` over the successors, and some action reaches it |
| TicTacToe.FindFrom | tictactoe/tictactoe.py:124-135 | the search returns an action whose successor value equals the target, or `None` when no action's value does |
| TicTacToe.Minimax | tictactoe/tictactoe.py:116-135 | `None` exactly when the game is over. Otherwise the action is available, its successor value equals `max_value` for `X` or `min_value` for `O`, and no other action does better for the player to move |

## Left out

- `print`, `save`, `letter_grid` and `main` (crossword/generate.py:18-86, 260-287): terminal output, image rendering and command-line handling.
- Reading the structure and word files: the puzzle is an input value. `crossword/crossword.py` is not part of this model.
- The other programs of the collection (heredity, pagerank, questions): they are outside the modelled core.
- Python's set and dict iteration order: ties in the two heuristics, and the order in which `revise` visits words, are left open. Minimax visits cells in row-major order.
- Generate.CrosswordCreator.Revise: requires every word to have exactly its variable's length. Python accepts any domain whose words are long enough to index at the overlap, including words longer than the slot; it raises `IndexError` for a shorter word only when `domains[y]` is non-empty. Every call in the source comes after `enforce_node_consistency`, which establishes exact lengths, and `AC3` keeps them.
- Generate.Consistent: for a word shorter than its overlap index, Python may raise `IndexError`, depending on dict order, before it checks that variable's length. The model returns `false` for such an assignment.
- Generate.CrosswordCreator.Backtrack: requires a consistent assignment drawn from the domains. Every call in the source passes one: the empty dict from `solve`, or a dict that has just passed `consistent`.
- Generate.CrosswordCreator.AC3: a caller's `arcs` list is consumed in place by `pop`. The model takes the list as a value, so the caller's copy is unchanged.
- Generate.CrosswordCreator.AC3: `True` does not mean that every domain is non-empty, unlike the promise of the docstring at crossword/generate.py:141-142. A domain emptied before the call, for instance by node consistency on a variable with no neighbours, is never revised, so `True` is returned with it still empty. The contract therefore ties only `False` to an empty domain.
- Generate.CrosswordCreator.AC3: on `False` it states only that some domain is empty, not which revision emptied it.
- Generate.CrosswordCreator.OrderDomainValues: the model uses an insertion sort, not Python's `list.sort`. The stable tie order is not stated.
- Generate.CrosswordCreator.SelectUnassignedVariable: it states which variable may be chosen, not which of several tied ones.
- TicTacToe.Minimax: Python scans `actions(board)` in set order. The model scans in row-major order, so among several optimal actions it may pick a different one.
- The board is a value: the model does not model Python's deep copy or aliasing of rows.
