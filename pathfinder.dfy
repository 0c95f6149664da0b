/**
  The maze solver: a search from the initial state to the key state, then a
  search from the key state to a goal state, the two action lists joined.
  Each search keeps a frontier of search-tree nodes, ordered by their
  heuristic value, and a set of visited states.
*/
module Pathfinder {
  import opened Wrappers
  import opened Maze
  import opened SearchTree
  import opened Heuristic
  import opened SearchInvariants

  /** What solve hands back: a list of actions, null, or the exception addAll(null) raises. */
  datatype Outcome = Solved(actions: seq<Action>) | NoSolution | NullPathFault

  function Reversed<T>(s: seq<T>): seq<T> {
    if s == [] then [] else [s[|s| - 1]] + Reversed(s[..|s| - 1])
  }

  lemma {:induction false} ReversedAt<T>(s: seq<T>, k: nat)
    requires k < |s|
    ensures |Reversed(s)| == |s|
    ensures Reversed(s)[k] == s[|s| - 1 - k]
    decreases |s|
  {
    if k > 0 {
      ReversedAt(s[..|s| - 1], k - 1);
    } else if |s| > 1 {
      ReversedAt(s[..|s| - 1], 0);
    }
  }

  lemma ReversedSnoc<T>(s: seq<T>, x: T)
    ensures Reversed(s + [x]) == [x] + Reversed(s)
  {
    assert (s + [x])[..|s|] == s;
  }

  /**
    getSolution: walk the parent links from `goal` collecting actions, then
    copy them back to front.
  */
  method GetSolution(goal: SearchTreeNode) returns (solution: seq<Action>)
    ensures solution == PathActions(goal)
  {
    var solutionReversed: seq<Action> := [];
    var current := goal;
    while current.Child?
      invariant PathActions(goal) == PathActions(current) + Reversed(solutionReversed)
      decreases current
    {
      ReversedSnoc(solutionReversed, current.action);
      solutionReversed := solutionReversed + [current.action];
      current := current.parent;
    }
    solution := [];
    var i := 0;
    while i < |solutionReversed|
      invariant 0 <= i <= |solutionReversed|
      invariant |solution| == i
      invariant forall k :: 0 <= k < i ==> solution[k] == solutionReversed[|solutionReversed| - 1 - k]
    {
      solution := solution + [solutionReversed[|solutionReversed| - 1 - i]];
      i := i + 1;
    }
    forall k | 0 <= k < |solution|
      ensures |Reversed(solutionReversed)| == |solution| && solution[k] == Reversed(solutionReversed)[k]
    {
      ReversedAt(solutionReversed, k);
    }
    if solutionReversed != [] {
      ReversedAt(solutionReversed, 0);
    }
  }

  /**
    poll on the frontier: the index of a node of least `value`, the order
    SearchTreeNode.compareTo gives. This body takes the first such node;
    callers may rely only on its being least.
  */
  method PollMin(frontier: seq<SearchTreeNode>) returns (i: nat)
    requires |frontier| > 0
    ensures i < |frontier|
    ensures forall k :: 0 <= k < |frontier| ==> frontier[i].Value() <= frontier[k].Value()
  {
    i := 0;
    var j := 1;
    while j < |frontier|
      invariant i < j <= |frontier|
      invariant forall k :: 0 <= k < j ==> frontier[i].Value() <= frontier[k].Value()
    {
      if frontier[j].Value() < frontier[i].Value() {
        i := j;
      }
      j := j + 1;
    }
  }

  /**
    The expansion of `current`: for every transition out of its state to a
    state not in `visited`, a child node is appended to the frontier.
  */
  method PushChildren(problem: MazeProblem, goal: set<MazeState>, current: SearchTreeNode,
                      visited: set<MazeState>, frontier: seq<SearchTreeNode>)
    returns (next: seq<SearchTreeNode>)
    ensures |frontier| <= |next| && next[..|frontier|] == frontier
    ensures forall k :: |frontier| <= k < |next| ==> IsPushedChild(problem, goal, current, visited, next[k])
    ensures forall a :: a in Transitions(problem, current.state) && Transitions(problem, current.state)[a] !in visited ==>
              exists k :: |frontier| <= k < |next| && next[k].Child? && next[k].action == a &&
                          next[k].state == Transitions(problem, current.state)[a]
    ensures forall j, k :: |frontier| <= j < k < |next| && next[j].Child? && next[k].Child? ==>
              next[j].action != next[k].action
  {
    var children := Transitions(problem, current.state);
    var remaining := children.Keys;
    next := frontier;
    while remaining != {}
      invariant remaining <= children.Keys
      invariant |frontier| <= |next| && next[..|frontier|] == frontier
      invariant forall k :: |frontier| <= k < |next| ==>
                  IsPushedChild(problem, goal, current, visited, next[k]) && next[k].action !in remaining
      invariant forall a :: a in children.Keys - remaining && children[a] !in visited ==>
                  exists k :: |frontier| <= k < |next| && next[k].Child? && next[k].action == a &&
                              next[k].state == children[a]
      invariant forall j, k :: |frontier| <= j < k < |next| && next[j].Child? && next[k].Child? ==>
                  next[j].action != next[k].action
      decreases remaining
    {
      var action :| action in remaining;
      var child := children[action];
      if child !in visited {
        var cost := problem.cost(child);
        var value := NearestGoalValue(child, goal);
        var childNode := Child(child, action, current, value, cost, current.Distance() + cost);
        ghost var before := next;
        next := next + [childNode];
        forall a | a in children.Keys - (remaining - {action}) && children[a] !in visited
          ensures exists k :: |frontier| <= k < |next| && next[k].Child? && next[k].action == a &&
                              next[k].state == children[a]
        {
          if a == action {
            assert next[|next| - 1] == childNode;
          } else {
            var k :| |frontier| <= k < |before| && before[k].Child? && before[k].action == a &&
                     before[k].state == children[a];
            assert next[k] == before[k];
          }
        }
      }
      remaining := remaining - {action};
    }
  }

  /**
    AStar: the search from `initial` to any state of `goal`. It answers a
    list of actions leading there, or None (null) once the frontier is empty,
    which happens only when no state of `goal` can be reached.
  */
  method AStar(initial: MazeState, goal: set<MazeState>, problem: MazeProblem) returns (path: Option<seq<Action>>)
    ensures path.Some? ==> Leads(problem, initial, path.value, goal)
    ensures path.Some? ==> exists n :: Consistent(problem, initial, goal, n) && n.state in goal && PathActions(n) == path.value
    ensures path.None? ==> !Reachable(problem, initial, goal)
  {
    var frontier := [Root(initial)];
    var visited: set<MazeState> := {};
    SearchInvariantInit(problem, initial, goal);
    while |frontier| > 0
      invariant SearchInvariant(problem, initial, goal, visited, frontier)
      decreases |Universe(problem, initial) - visited|, StaleCount(frontier, visited)
    {
      var i := PollMin(frontier);
      var current := frontier[i];
      ghost var polled := frontier;
      ghost var visitedBefore := visited;
      frontier := frontier[..i] + frontier[i + 1..];
      visited := visited + {current.state};
      if current.state in goal {
        var solution := GetSolution(current);
        ConsistentLeads(problem, initial, goal, current);
        return Some(solution);
      }
      frontier := PushChildren(problem, goal, current, visited, frontier);
      StepPreservesInvariant(problem, initial, goal, visitedBefore, polled, i, frontier);
    }
    assert initial in visited;
    forall actions
      ensures !Leads(problem, initial, actions, goal)
    {
      ClosedRun(problem, visited, initial, actions);
    }
    return None;
  }

  /**
    solve: search from the initial state to the key, then from the key to a
    goal. There is no solution without a key or without a way to it; when the
    key cannot reach a goal, the second search's null reaches addAll.
  */
  method Solve(problem: MazeProblem) returns (r: Outcome)
    ensures r.NoSolution? <==> problem.key.None? || !Reachable(problem, problem.initial, {problem.key.value})
    ensures r.NullPathFault? <==>
              && problem.key.Some?
              && Reachable(problem, problem.initial, {problem.key.value})
              && !Reachable(problem, problem.key.value, problem.goals)
    ensures r.Solved? ==>
              && problem.key.Some?
              && exists i :: 0 <= i <= |r.actions|
                   && Run(problem, problem.initial, r.actions[..i]) == Some(problem.key.value)
                   && Leads(problem, problem.key.value, r.actions[i..], problem.goals)
    ensures r.Solved? ==> Leads(problem, problem.initial, r.actions, problem.goals)
  {
    var initialState := problem.initial;
    if problem.key.None? {
      return NoSolution;
    }
    var keyState := problem.key.value;
    var finalState := problem.goals;
    var keys := {keyState};
    var path1 := AStar(initialState, keys, problem);
    if path1.None? {
      return NoSolution;
    }
    assert Reachable(problem, initialState, keys) by {
      assert Leads(problem, initialState, path1.value, keys);
    }
    var path2 := AStar(keyState, finalState, problem);
    if path2.None? {
      return NullPathFault;
    }
    assert Reachable(problem, keyState, finalState) by {
      assert Leads(problem, keyState, path2.value, finalState);
    }
    var finalPath := path1.value + path2.value;
    assert finalPath[..|path1.value|] == path1.value;
    assert finalPath[|path1.value|..] == path2.value;
    RunAppend(problem, initialState, path1.value, path2.value);
    return Solved(finalPath);
  }
}
