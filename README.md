# Maze pathfinder, modelled and verified in Dafny

This project models the maze solver of `Pathfinder.java`. A maze problem has
an initial state, an optional key state and a set of goal states. `solve`
searches from the initial state to the key, then from the key to any goal, and
joins the two action lists. Each search (`AStar`) keeps a frontier of search
tree nodes and a set of visited states. It polls a node of least heuristic
value and marks its state visited. If that state is a goal, it rebuilds the
node's action list (`getSolution`). Otherwise it pushes one child per move to
a state not yet visited. A child records its action, its parent, the Manhattan
distance to the nearest goal (`getManhattanDistance`, capped at 1000000), the
cost of its state and the accumulated distance.

Files:

- `wrappers.dfy`: `Option`, for Java's `null`.
- `maze.dfy`: the collaborators the solver only reads.
  - `MazeState` is a (row, col) cell.
  - `MazeProblem` has the initial state, the optional key, the goals, a finite
    transition table and the step cost.
  - `Run`, `Leads` and `Reachable` say where a list of actions leads. `PathCost`
    adds up the costs along the way.
- `search_tree.dfy`: `SearchTreeNode`, which never changes once built, as a
  datatype. The root is the node built at `Pathfinder.java:53`. `PathActions` gives the
  actions along the parent chain, root first.
- `heuristic.dfy`: the Manhattan distance, and the child loop that computes
  `value`.
- `search_invariants.dfy`: what the search loop keeps true, and the lemmas
  that prove it.
  - Every frontier node is `Consistent`: its chain really follows the maze, and
    its `distance` is the sum of the costs.
  - No visited state is a goal.
  - The start, and every move out of a visited state, is visited or waits in
    the frontier.
- `pathfinder.dfy`: `GetSolution`, the frontier poll, the child expansion,
  `AStar` and `Solve`.

The class comment at `Pathfinder.java:14` calls this a breadth-first search.
The code is not breadth-first, and the model follows the code. The frontier is
ordered by `SearchTreeNode.compareTo`, which compares only `value`, the
heuristic. So the search is a best-first search on the heuristic.

Only `Pathfinder.java` is modelled. The repository's other programs (the
calendar solver in `CSPSolver.java`, the Huffman coder, the edit-distance
utility and the tic-tac-toe player) are not.

`solve` does not check whether the second search returned `null`. When it
does, `finalPath.addAll(null)` throws. The model returns that case as the
outcome `NullPathFault`, not as "no solution".

## Model

| member | source | states |
|---|---|---|
| Heuristic.ManhattanDistance | Pathfinder.java:98-105 | the distance is never negative, and it is zero exactly when both cells are the same |
| Heuristic.ManhattanSymmetric | Pathfinder.java:98-105 | swapping the two cells gives the same distance |
| Heuristic.NearestGoalValue | Pathfinder.java:75-80 | the loop over the goal set leaves `value` at most 1000000, at most the distance to every goal, and either 1000000 or the distance to some goal |
| Heuristic.NearestGoalValueUnique | Pathfinder.java:75-80 | those three conditions fix the value, so the order the set is visited in does not change it |
| Heuristic.NearestGoalValueZero | Pathfinder.java:75-80 | the value is never negative, and it is zero exactly when the child is a goal state |
| Heuristic.NearestGoalValueCeiling | Pathfinder.java:75-80 | with no goal, or with every goal at least 1000000 away, the value stays 1000000 |
| SearchTree.PathActionsLength | Pathfinder.java:115-130 | the action list has one entry per non-root node on the parent chain, so the root gives the empty list |
| SearchTree.PathActionsAt | Pathfinder.java:115-130 | the action of the node k parent links up stands at position depth-1-k, which is root-first order |
| Pathfinder.GetSolution | Pathfinder.java:115-131 | walking the parent links and then copying backwards gives exactly the root-first action list of the node |
| Pathfinder.PollMin | Pathfinder.java:58 | the polled node has the least `value` in the frontier, the order `SearchTreeNode.compareTo` defines |
| Pathfinder.PushChildren | Pathfinder.java:65-90 | the old frontier is kept as is; each pushed node is a child of the polled node whose state was not visited, with action and state from the transition map, `cost` = getCost(state), `distance` = parent distance + cost and `value` the nearest-goal value; every move to an unvisited state gets exactly one node |
| SearchInvariants.SearchInvariantInit | Pathfinder.java:52-55 | the search starts from the root node of the initial state and an empty visited set, and this meets the loop invariant |
| SearchInvariants.PushedChildConsistent | Pathfinder.java:82-88 | a child built from a consistent node is itself consistent |
| SearchInvariants.StepKeepsConsistency | Pathfinder.java:57-90 | after one iteration every frontier node is still consistent |
| SearchInvariants.StepKeepsCoverage | Pathfinder.java:57-90 | after one iteration the start, and every move out of a visited state, is still visited or waits in the frontier |
| SearchInvariants.StepDecreases | Pathfinder.java:57-90 | each iteration either visits one more state of the finite maze, or drops one frontier node whose state was already visited, so the loop ends |
| SearchInvariants.StepPreservesInvariant | Pathfinder.java:57-92 | one iteration keeps the whole loop invariant; the new visited set is the old one plus the polled state, and the loop's measure goes down |
| SearchInvariants.ConsistentLeads | Pathfinder.java:82-83 | following a consistent node's actions from the start ends at the node's state |
| SearchInvariants.ConsistentDistance | Pathfinder.java:73-83 | a consistent node's distance is the sum of getCost over the states its path steps onto, starting from 0 at the root |
| SearchInvariants.AncestorDistance | Pathfinder.java:82-83 | distances are never negative and never decrease from an ancestor to its descendant |
| SearchInvariants.ClosedRun | Pathfinder.java:57-94 | from a visited state, when the visited set is closed under moves, every path ends in a visited state |
| Pathfinder.AStar | Pathfinder.java:51-95 | a returned list leads from the start to a goal state, and it is the action list of a consistent node whose state is a goal; null (None) is returned only when no goal state can be reached |
| Maze.RunAppend | Pathfinder.java:41-45 | following two action lists one after the other is following their concatenation |
| Maze.PathCostSnoc | Pathfinder.java:73-83 | one more available action adds the cost of the state it steps onto |
| Pathfinder.Solve | Pathfinder.java:28-47 | no solution exactly when there is no key or the key cannot be reached; the addAll(null) fault exactly when the key can be reached but no goal can be reached from it; otherwise the answer is a path to the key followed by a path from it to a goal, so it leads from the start to a goal |

## Left out

- The internals of `MazeProblem` and `MazeState` are not part of this model. Maze parsing, the real transition rules and the cost values are abstract here. `getTransitions` is a finite transition table: a state not in the table has no moves. `getCost` is an arbitrary function to non-negative integers. `equals`/`hashCode` are value equality on (row, col).
- Java's `HashSet`, `PriorityQueue` and `entrySet()` are mathematical sets and sequences here. The order in which a set or map is walked is an arbitrary choice. Among frontier nodes of equal `value`, the model polls the first one. The heap may pick another, and no stated property depends on which.
- Integers are unbounded. The model has no 32-bit overflow in `Math.abs`, in `current.distance + cost` or in `compareTo`'s subtraction.
- The search is not proved to find a shortest or cheapest path. The frontier is ordered by the heuristic alone, so it need not find one.
- Termination depends on the transition table being finite, which a maze read from a finite grid always is.
- The lines of commented-out code (66, 74) and the trailing notes (137-138) are not code.
