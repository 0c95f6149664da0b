/**
  What holds of the nodes and the visited set while the A* loop runs, and the
  facts about them that the loop's proof uses.
*/
module SearchInvariants {
  import opened Wrappers
  import opened Maze
  import opened SearchTree
  import opened Heuristic

  /**
    A node the search from `initial` towards `goal` can build: the root holds
    `initial`; a child holds the state its action leads to from its parent's
    state, the cost of that state, its parent's distance plus that cost, and
    the nearest-goal heuristic of its state.
  */
  ghost predicate Consistent(problem: MazeProblem, initial: MazeState, goal: set<MazeState>, n: SearchTreeNode) {
    match n
    case Root(s) => s == initial
    case Child(s, a, p, v, c, d) =>
      && Consistent(problem, initial, goal, p)
      && a in Transitions(problem, p.state)
      && Transitions(problem, p.state)[a] == s
      && c == problem.cost(s)
      && d == p.Distance() + c
      && IsNearestGoalValue(s, goal, v)
  }

  /** A child pushed while expanding `current`, whose state was not yet visited. */
  ghost predicate IsPushedChild(problem: MazeProblem, goal: set<MazeState>, current: SearchTreeNode,
                                visited: set<MazeState>, n: SearchTreeNode) {
    && n.Child?
    && n.parent == current
    && n.action in Transitions(problem, current.state)
    && n.state == Transitions(problem, current.state)[n.action]
    && n.state !in visited
    && n.cost == problem.cost(n.state)
    && n.distance == current.Distance() + n.cost
    && IsNearestGoalValue(n.state, goal, n.value)
  }

  lemma PushedChildConsistent(problem: MazeProblem, initial: MazeState, goal: set<MazeState>,
                              current: SearchTreeNode, visited: set<MazeState>, n: SearchTreeNode)
    requires Consistent(problem, initial, goal, current)
    requires IsPushedChild(problem, goal, current, visited, n)
    ensures Consistent(problem, initial, goal, n)
  {
  }

  /** The actions of a consistent node lead from `initial` to the node's state. */
  lemma {:induction false} ConsistentLeads(problem: MazeProblem, initial: MazeState, goal: set<MazeState>, n: SearchTreeNode)
    requires Consistent(problem, initial, goal, n)
    ensures Run(problem, initial, PathActions(n)) == Some(n.state)
  {
    match n
    case Root(_) =>
    case Child(s, a, p, _, _, _) =>
      ConsistentLeads(problem, initial, goal, p);
      RunSnoc(problem, initial, PathActions(p), a);
  }

  /** The distance of a consistent node is the cost of its path from `initial`. */
  lemma {:induction false} ConsistentDistance(problem: MazeProblem, initial: MazeState, goal: set<MazeState>, n: SearchTreeNode)
    requires Consistent(problem, initial, goal, n)
    ensures n.Distance() == PathCost(problem, initial, PathActions(n))
  {
    match n
    case Root(_) =>
    case Child(s, a, p, _, _, _) =>
      ConsistentDistance(problem, initial, goal, p);
      ConsistentLeads(problem, initial, goal, p);
      PathCostSnoc(problem, initial, PathActions(p), a, p.state);
  }

  /** Distances never decrease going down a chain of consistent nodes. */
  lemma {:induction false} AncestorDistance(problem: MazeProblem, initial: MazeState, goal: set<MazeState>,
                                            n: SearchTreeNode, k: nat)
    requires Consistent(problem, initial, goal, n)
    requires k <= Depth(n)
    ensures 0 <= Ancestor(n, k).Distance() <= n.Distance()
    decreases k
  {
    if k == 0 {
      NonNegativeDistance(problem, initial, goal, n);
    } else {
      AncestorDistance(problem, initial, goal, n.parent, k - 1);
    }
  }

  lemma {:induction false} NonNegativeDistance(problem: MazeProblem, initial: MazeState, goal: set<MazeState>, n: SearchTreeNode)
    requires Consistent(problem, initial, goal, n)
    ensures n.Distance() >= 0
  {
    if n.Child? {
      NonNegativeDistance(problem, initial, goal, n.parent);
    }
  }

  /** Every state held by a consistent node is in the universe of the search. */
  lemma ConsistentInUniverse(problem: MazeProblem, initial: MazeState, goal: set<MazeState>, n: SearchTreeNode)
    requires Consistent(problem, initial, goal, n)
    ensures n.state in Universe(problem, initial)
  {
    if n.Child? {
      TargetInUniverse(problem, initial, n.parent.state, n.action);
    }
  }

  /** `s` has been visited, or a node holding it waits in the frontier. */
  ghost predicate Covered(s: MazeState, visited: set<MazeState>, frontier: seq<SearchTreeNode>) {
    s in visited || exists k :: 0 <= k < |frontier| && frontier[k].state == s
  }

  /** Every move out of a visited state leads to a covered state. */
  ghost predicate Closed(problem: MazeProblem, visited: set<MazeState>, frontier: seq<SearchTreeNode>) {
    forall p, a :: p in visited && a in Transitions(problem, p) ==> Covered(Transitions(problem, p)[a], visited, frontier)
  }

  /** Popping node `i` and visiting its state keeps every covered state covered. */
  lemma CoveredAfterPoll(s: MazeState, visited: set<MazeState>, frontier: seq<SearchTreeNode>, i: nat)
    requires i < |frontier|
    requires Covered(s, visited, frontier)
    ensures Covered(s, visited + {frontier[i].state}, frontier[..i] + frontier[i + 1..])
  {
    var rest := frontier[..i] + frontier[i + 1..];
    if s !in visited && s != frontier[i].state {
      var k :| 0 <= k < |frontier| && frontier[k].state == s;
      if k < i {
        assert rest[k] == frontier[k];
      } else {
        assert rest[k - 1] == frontier[k];
      }
    }
  }

  /** Pushing more nodes keeps every covered state covered. */
  lemma CoveredAfterPush(s: MazeState, visited: set<MazeState>, frontier: seq<SearchTreeNode>, next: seq<SearchTreeNode>)
    requires |frontier| <= |next| && next[..|frontier|] == frontier
    requires Covered(s, visited, frontier)
    ensures Covered(s, visited, next)
  {
    if s !in visited {
      var k :| 0 <= k < |frontier| && frontier[k].state == s;
      assert next[k] == frontier[k];
    }
  }

  /**
    One loop iteration keeps the start covered and the visited set closed:
    node `i` is popped, its state visited, and `next` extends the rest of the
    frontier with a node for every move out of that state to an unvisited one.
  */
  lemma StepKeepsCoverage(problem: MazeProblem, start: MazeState, visited: set<MazeState>,
                          frontier: seq<SearchTreeNode>, i: nat, next: seq<SearchTreeNode>)
    requires i < |frontier|
    requires Covered(start, visited, frontier) && Closed(problem, visited, frontier)
    requires var rest := frontier[..i] + frontier[i + 1..];
             |rest| <= |next| && next[..|rest|] == rest
    requires var s := frontier[i].state;
             forall a :: a in Transitions(problem, s) && Transitions(problem, s)[a] !in visited + {s} ==>
               exists k :: |frontier| - 1 <= k < |next| && next[k].Child? && next[k].action == a &&
                           next[k].state == Transitions(problem, s)[a]
    ensures Covered(start, visited + {frontier[i].state}, next)
    ensures Closed(problem, visited + {frontier[i].state}, next)
  {
    var s := frontier[i].state;
    var visited' := visited + {s};
    var rest := frontier[..i] + frontier[i + 1..];
    CoveredAfterPoll(start, visited, frontier, i);
    CoveredAfterPush(start, visited', rest, next);
    forall p, a | p in visited' && a in Transitions(problem, p)
      ensures Covered(Transitions(problem, p)[a], visited', next)
    {
      var t := Transitions(problem, p)[a];
      if t !in visited' {
        if p == s {
          var k :| |frontier| - 1 <= k < |next| && next[k].Child? && next[k].action == a && next[k].state == t;
        } else {
          assert Covered(t, visited, frontier);
          CoveredAfterPoll(t, visited, frontier, i);
          CoveredAfterPush(t, visited', rest, next);
        }
      }
    }
  }

  /** From a visited state of a closed visited set, every run ends in a visited state. */
  lemma {:induction false} ClosedRun(problem: MazeProblem, visited: set<MazeState>, s: MazeState, actions: seq<Action>)
    requires Closed(problem, visited, [])
    requires s in visited
    ensures Run(problem, s, actions).Some? ==> Run(problem, s, actions).value in visited
    decreases |actions|
  {
    if actions != [] && actions[0] in Transitions(problem, s) {
      var t := Transitions(problem, s)[actions[0]];
      assert Covered(t, visited, []);
      ClosedRun(problem, visited, t, actions[1..]);
    }
  }

  /** The number of frontier nodes whose state has already been visited. */
  function StaleCount(frontier: seq<SearchTreeNode>, visited: set<MazeState>): nat {
    if frontier == [] then 0
    else (if frontier[0].state in visited then 1 else 0) + StaleCount(frontier[1..], visited)
  }

  lemma {:induction false} StaleCountAppend(xs: seq<SearchTreeNode>, ys: seq<SearchTreeNode>, visited: set<MazeState>)
    ensures StaleCount(xs + ys, visited) == StaleCount(xs, visited) + StaleCount(ys, visited)
    decreases |xs|
  {
    if xs == [] {
      assert xs + ys == ys;
    } else {
      assert (xs + ys)[1..] == xs[1..] + ys;
      StaleCountAppend(xs[1..], ys, visited);
    }
  }

  lemma {:induction false} StaleCountNone(xs: seq<SearchTreeNode>, visited: set<MazeState>)
    requires forall k :: 0 <= k < |xs| ==> xs[k].state !in visited
    ensures StaleCount(xs, visited) == 0
    decreases |xs|
  {
    if xs != [] {
      StaleCountNone(xs[1..], visited);
    }
  }

  /** Removing a node whose state is visited lowers the count by one. */
  lemma StaleCountRemove(frontier: seq<SearchTreeNode>, i: nat, visited: set<MazeState>)
    requires i < |frontier| && frontier[i].state in visited
    ensures StaleCount(frontier[..i] + frontier[i + 1..], visited) + 1 == StaleCount(frontier, visited)
  {
    assert frontier == frontier[..i] + ([frontier[i]] + frontier[i + 1..]);
    StaleCountAppend(frontier[..i], [frontier[i]] + frontier[i + 1..], visited);
    StaleCountAppend([frontier[i]], frontier[i + 1..], visited);
    StaleCountAppend(frontier[..i], frontier[i + 1..], visited);
    assert ([frontier[i]] + frontier[i + 1..])[1..] == frontier[i + 1..];
    assert [frontier[i]][1..] == [];
  }

  /**
    What the A* loop keeps: every frontier node is consistent, no visited
    state is a goal, and what has been seen covers the start and every move
    out of a visited state.
  */
  ghost predicate SearchInvariant(problem: MazeProblem, initial: MazeState, goal: set<MazeState>,
                                  visited: set<MazeState>, frontier: seq<SearchTreeNode>) {
    && (forall k :: 0 <= k < |frontier| ==> Consistent(problem, initial, goal, frontier[k]))
    && visited <= Universe(problem, initial)
    && visited !! goal
    && Covered(initial, visited, frontier)
    && Closed(problem, visited, frontier)
  }

  /** The one-node frontier the search starts from. */
  lemma SearchInvariantInit(problem: MazeProblem, initial: MazeState, goal: set<MazeState>)
    ensures SearchInvariant(problem, initial, goal, {}, [Root(initial)])
  {
    assert [Root(initial)][0].state == initial;
  }

  /** Polling node `i` and pushing consistent children of it keeps every frontier node consistent. */
  lemma StepKeepsConsistency(problem: MazeProblem, initial: MazeState, goal: set<MazeState>,
                             visited: set<MazeState>, frontier: seq<SearchTreeNode>, i: nat,
                             next: seq<SearchTreeNode>)
    requires forall k :: 0 <= k < |frontier| ==> Consistent(problem, initial, goal, frontier[k])
    requires i < |frontier|
    requires var rest := frontier[..i] + frontier[i + 1..];
             |rest| <= |next| && next[..|rest|] == rest
    requires forall k :: |frontier| - 1 <= k < |next| ==> IsPushedChild(problem, goal, frontier[i], visited, next[k])
    ensures forall k :: 0 <= k < |next| ==> Consistent(problem, initial, goal, next[k])
  {
    var rest := frontier[..i] + frontier[i + 1..];
    forall k | 0 <= k < |next|
      ensures Consistent(problem, initial, goal, next[k])
    {
      if k < |rest| {
        assert next[k] == rest[k];
        assert rest[k] == if k < i then frontier[k] else frontier[k + 1];
      } else {
        PushedChildConsistent(problem, initial, goal, frontier[i], visited, next[k]);
      }
    }
  }

  /**
    The loop's measure goes down: either one more state of the universe is
    visited or, the polled state having been visited before, one fewer stale
    node waits in the frontier.
  */
  lemma StepDecreases(universe: set<MazeState>, visited: set<MazeState>, frontier: seq<SearchTreeNode>, i: nat,
                      next: seq<SearchTreeNode>)
    requires i < |frontier| && frontier[i].state in universe
    requires var rest := frontier[..i] + frontier[i + 1..];
             |rest| <= |next| && next[..|rest|] == rest
    requires forall k :: |frontier| - 1 <= k < |next| ==> next[k].state !in visited + {frontier[i].state}
    ensures var visited' := visited + {frontier[i].state};
            || |universe - visited'| < |universe - visited|
            || (visited' == visited && StaleCount(next, visited') < StaleCount(frontier, visited))
  {
    var s := frontier[i].state;
    var visited' := visited + {s};
    var rest := frontier[..i] + frontier[i + 1..];
    if s in visited {
      assert visited' == visited;
      StaleCountRemove(frontier, i, visited);
      var pushed := next[|rest|..];
      assert next == rest + pushed;
      StaleCountAppend(rest, pushed, visited);
      forall k | 0 <= k < |pushed|
        ensures pushed[k].state !in visited
      {
        assert pushed[k] == next[|rest| + k];
      }
      StaleCountNone(pushed, visited);
    } else {
      assert s in universe - visited;
      assert universe - visited == (universe - visited') + {s};
    }
  }

  /**
    One iteration of the loop: node `i` (not a goal) is polled, its state
    visited and `next` is the rest of the frontier followed by its unvisited
    children. The invariant is kept and the loop's measure goes down.
  */
  lemma StepPreservesInvariant(problem: MazeProblem, initial: MazeState, goal: set<MazeState>,
                               visited: set<MazeState>, frontier: seq<SearchTreeNode>, i: nat,
                               next: seq<SearchTreeNode>)
    requires SearchInvariant(problem, initial, goal, visited, frontier)
    requires i < |frontier| && frontier[i].state !in goal
    requires var rest := frontier[..i] + frontier[i + 1..];
             |rest| <= |next| && next[..|rest|] == rest
    requires forall k :: |frontier| - 1 <= k < |next| ==>
               IsPushedChild(problem, goal, frontier[i], visited + {frontier[i].state}, next[k])
    requires var s := frontier[i].state;
             forall a :: a in Transitions(problem, s) && Transitions(problem, s)[a] !in visited + {s} ==>
               exists k :: |frontier| - 1 <= k < |next| && next[k].Child? && next[k].action == a &&
                           next[k].state == Transitions(problem, s)[a]
    ensures SearchInvariant(problem, initial, goal, visited + {frontier[i].state}, next)
    ensures var universe := Universe(problem, initial);
            var visited' := visited + {frontier[i].state};
            || |universe - visited'| < |universe - visited|
            || (visited' == visited && StaleCount(next, visited') < StaleCount(frontier, visited))
  {
    StepKeepsCoverage(problem, initial, visited, frontier, i, next);
    StepKeepsConsistency(problem, initial, goal, visited + {frontier[i].state}, frontier, i, next);
    ConsistentInUniverse(problem, initial, goal, frontier[i]);
    StepDecreases(Universe(problem, initial), visited, frontier, i, next);
  }
}
