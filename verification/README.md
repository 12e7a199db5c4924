# Taquin A* solver — a Dafny model

This project models the core of a small Python solver for the 3×3 sliding-tile
puzzle ("taquin"), found in `code_initial.py`. The model covers:

- the goal board `ETAT_OBJECTIF`, which has tiles 1–8 in row-major order and
  the blank (0) last;
- the move table `DEPLACEMENTS`: Haut, Bas, Gauche, Droite, as row/column
  offsets;
- `trouver_vide`, which finds the first blank in row-major order;
- `deplacements_possibles`, which lists the successors of a board. For each
  direction whose target cell is on the board, it gives the direction and the
  board with the blank and the target swapped.
- `heuristique`, the misplaced-tiles (Hamming) count;
- `a_etoile`, the A* search. It has:
  - a priority frontier of `(f, g, state, path)` entries;
  - a closed set, where boards popped a second time are dropped;
  - an immediate return when the goal is popped;
  - `(None, None, 0, len(visited))` when the frontier empties.

The modules follow the program's layers:

| module | file | models |
|---|---|---|
| `Wrappers` | `wrappers.dfy` | `Option`, for Python's `None` |
| `Grid` | `grid.dfy` | boards, cells, the goal, `trouver_vide`, the cell swap |
| `Moves` | `moves.dfy` | `DEPLACEMENTS`, `deplacements_possibles` |
| `Paths` | `paths.dfy` | paths of `(move, board)` pairs, as the search records them |
| `Heuristic` | `heuristic.dfy` | `heuristique` and its properties |
| `AStar` | `astar.dfy` | `a_etoile` |

A board is the subset type `Board` of three rows of three integers. Nothing
else is assumed of a board: it may have no blank or several blanks, as the
Python accepts such input.

The search is the method `AStar.Search`. It returns one of three outcomes:

- `Solved(path, final, openSize, visitedCount)`, for the source's 4-tuple on
  success;
- `Exhausted(visitedCount)`, for `(None, None, 0, len(visited))`;
- `NoBlank`, for an initial board without a blank. The Python raises a
  `TypeError` there, when `deplacements_possibles` unpacks the `None`
  returned by `trouver_vide`.

The search does not use fuel. It terminates because every board it meets holds
the same tiles as the initial board. All such boards lie in a finite set of
candidate boards, and each expansion closes one more of them.

## Model

| member | source | states |
|---|---|---|
| Grid.FindBlank | code_initial.py:28-32 | The result is None exactly when no cell holds 0. Otherwise it is an on-board cell holding 0, and every cell before it in row-major order is non-zero: the first blank of the nested row/column scan. |
| Grid.ScanFrom | code_initial.py:29-32 | The scan from cell (i, j) finds a blank at or after (i, j), with no blank between (i, j) and it. It returns None only when no cell from (i, j) on holds 0. |
| Grid.FindBlankUnique | code_initial.py:28-32 | On a board whose only blank is at `p`, the scan returns `p`. |
| Grid.Swap | code_initial.py:43-46 | Cells `p` and `q` exchange their contents, and every other cell keeps its tile. |
| Grid.SwapCells | code_initial.py:43-46 | In row-major cell order, a swap is the two single-cell updates of the tuple rebuild. |
| Grid.SwapSameTiles | code_initial.py:43-46 | A swap keeps the multiset of tiles: the new board is a permutation of the old one. |
| Grid.Put | code_initial.py:45 | Writing one cell changes that cell only. |
| Moves.Opposite | code_initial.py:10-15 | The opposite direction negates both offsets of the move table and is a different direction. |
| Moves.Slide | code_initial.py:41-46 | Moving the blank at `p` yields a board exactly when the target `(x+dx, y+dy)` satisfies `0 <= nx < 3 and 0 <= ny < 3`. |
| Moves.Apply | code_initial.py:37-46 | Moving the blank of a board in direction `d` is possible exactly when the blank's target cell is on the board. |
| Moves.ApplySwaps | code_initial.py:43-46 | After a move, the target cell holds the blank and the old blank cell holds the target's tile. Every other cell is unchanged, and the tiles are the same. |
| Moves.Collect | code_initial.py:40-47 | Every collected pair is a direction from the table together with the board that moving in that direction produces. |
| Moves.CollectComplete | code_initial.py:40-47 | Every direction that produces a board is collected. |
| Moves.CollectOrdered | code_initial.py:40-47 | Collected pairs keep the order of the directions they come from. |
| Moves.CollectLength | code_initial.py:40-47 | The number of collected pairs is the number of directions that produce a board. |
| Moves.Successors | code_initial.py:35-49 | Each entry pairs a direction with the board that moving the blank that way gives. A direction appears exactly when its target is on the board. Entries follow the table order Haut, Bas, Gauche, Droite. |
| Moves.SuccessorComplete | code_initial.py:40-47 | A direction whose target cell is on the board appears among the collected successors. |
| Moves.SuccessorCount | code_initial.py:40-42 | The number of successors is 2 with the blank in a corner, 3 on an edge and 4 in the centre. |
| Moves.IsMoveIff | code_initial.py:40-47 | A (direction, board) pair is a successor exactly when moving in that direction gives that board. |
| Moves.MoveIsSwap | code_initial.py:41-46 | A successor is the swap of the blank with an on-board neighbour. |
| Moves.MoveKeepsTiles | code_initial.py:43-46 | A successor still has a blank, on the target cell, and is a permutation of the board it came from. |
| Moves.MoveKeepsUniqueBlank | code_initial.py:43-46 | A successor of a one-blank board has one blank, and the scan finds it on the target cell. |
| Moves.MoveReversible | code_initial.py:40-46 | On a one-blank board, moving back in the opposite direction restores the original board. |
| Paths.PathExtend | code_initial.py:92 | Appending a legal move from a path's end gives a path ending on that move's board. |
| Paths.PathPrefix | code_initial.py:92 | Dropping a path's last move leaves a path whose end the last move was legal from. |
| Paths.PathTail | code_initial.py:92 | Dropping a path's first move leaves a path from that move's board, with the same end. |
| Paths.ClosedSetContainsPaths | code_initial.py:83-92 | Take a set holding the start board and, with every board, all of its successors. That set holds the end of every path from the start. |
| Heuristic.CountWrong | code_initial.py:54-59 | The count is at most the number of cells, and below it when a blank is present. It is 0 exactly when every cell is blank or matches the goal's cell. |
| Heuristic.Misplaced | code_initial.py:52-59 | The value is at most 9, and at most 8 on a board with a blank. It is 0 exactly when every non-blank tile sits on its goal cell. |
| Heuristic.MisplacedGoal | code_initial.py:52-59 | The heuristic of the goal is 0. |
| Heuristic.MisplacedZeroIffGoal | code_initial.py:52-59 | On a permutation of the goal's tiles, the heuristic is 0 exactly when the board is the goal. |
| Heuristic.CountWrongUpdate | code_initial.py:55-58 | Changing one cell changes the count by that cell's contribution only. |
| Heuristic.SwapBlankCount | code_initial.py:55-58 | Trading the blank for one tile changes the count by at most 1. |
| Heuristic.MisplacedConsistent | code_initial.py:52-59 | One move changes the heuristic by at most 1, so the heuristic is consistent. |
| Heuristic.MisplacedAdmissible | code_initial.py:52-59 | The heuristic of a board is at most the length of any path from it to the goal, so it never overestimates. |
| AStar.SelectMin | code_initial.py:78 | The popped entry is in the frontier and no entry has a smaller (f, g) key. |
| AStar.Children | code_initial.py:88-92 | Every pushed entry is the child entry of a successor whose board is not closed. |
| AStar.ChildrenComplete | code_initial.py:88-92 | Every successor whose board is not closed gets its child entry pushed. |
| AStar.ChildOk | code_initial.py:89-92 | A child entry keeps g = length of its path and f = g + heuristic, and its path is a chain of legal moves ending on its board. |
| AStar.InvariantInit | code_initial.py:73-75 | The first frontier entry, (h(initial), 0, initial, []), satisfies the loop invariant. |
| AStar.InvariantSkip | code_initial.py:83-84 | Dropping an entry whose board is already closed keeps the loop invariant. |
| AStar.InvariantExpand | code_initial.py:86-92 | Closing a new board and pushing its unclosed successors keeps the loop invariant, and the expanded list grows by that board. |
| AStar.InvariantExhausted | code_initial.py:77-94 | When the frontier is empty, every board reachable from the initial board is closed, so the goal, which is never closed, is unreachable. |
| AStar.ExpandedFacts | code_initial.py:83-86 | The expanded boards are pairwise distinct, reachable and never the goal; there are as many as closed boards, and every closed board is among them. |
| AStar.ClosedAfterExpand | code_initial.py:86-92 | After an expansion, every successor of a closed board is closed or in the frontier. |
| AStar.Advance | code_initial.py:83-92 | One non-goal turn keeps the loop invariant. When the popped board is closed, the frontier loses that entry and nothing else changes. Otherwise exactly that board is closed, and the frontier loses the entry and gains the child entries of its unclosed successors. |
| AStar.Search | code_initial.py:72-94 | On success, the path is a chain of legal moves from the initial board ending on the goal. The path is empty exactly when the initial board is the goal, and then the result is `([], goal, 0, 0)`. The search succeeds exactly when the goal is reachable, and exhaustion means it is not. No board is expanded twice, every expanded board is reachable and is not the goal, and the reported closed-set size is the number of expansions. On exhaustion every reachable board was expanded, so the reported size is the number of boards reachable from the initial board. |

## Left out

- `lire_taquin`, `afficher_taquin` and `main` are console input and output, not search logic.
- AStar.SelectMin: heapq breaks (f, g) ties by comparing the boards, then the paths. The model pops any entry with the least (f, g). So it does not pin down which of several equally good paths is returned, nor the exact frontier size reported with it. Every proved property holds for any such choice.
- AStar.Search: on a board without a blank, the Python expands the initial board and then raises `TypeError`. The model reports `NoBlank` before doing any work.
- Moves.Successors requires a blank, because the Python raises `TypeError` without one. The search only expands boards that have a blank.
- The frontier is a multiset of entries rather than a binary heap, so heap layout is not modelled.
- Move labels are the datatype `Dir` rather than the strings 'Haut', 'Bas', 'Gauche', 'Droite'. The table order is kept as `Directions`.
- Boards of other shapes are excluded by the `Board` type. The Python never validates its input's shape.
- Optimality of the returned path is not stated. The heuristic is proved admissible and consistent, but the A* optimality argument is not carried out.
- The goal board is the fixed constant `Goal`, as in the source, rather than a parameter.
- The source's `heuristique` can reach 9 on a board with no blank, so the bound 8 is stated only for boards with a blank.
- Heuristic.MisplacedZeroIffGoal requires the board to be a permutation of the goal's tiles. Other boards can score 0 without being the goal: a board with two blanks and every other tile in place is one.
- Moves.MoveReversible requires a single blank. With two adjacent blanks, a move swaps two zeros, so the reverse move from the result is a different move.
