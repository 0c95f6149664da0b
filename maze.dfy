/**
  The maze collaborators that the search reads: a maze cell (MazeState), the
  problem (MazeProblem: initial state, key state, goal states, transitions and
  step costs), and what it means for a sequence of actions to lead somewhere.
  Their Java classes are not part of this model; they are described here only
  by what Pathfinder asks of them.
*/
module Maze {
  import opened Wrappers

  /** A cell of the maze, identified by its row and column. */
  datatype MazeState = MazeState(row: int, col: int)

  /** An action label, such as "U", "D", "L" or "R". */
  type Action = string

  /**
    A maze problem. `key` is None where getKeyState returns null.
    `transitions` is the finite transition table: the moves out of a state
    that is not a key of the table are none at all. `cost` is the cost of
    stepping onto a state.
  */
  datatype MazeProblem = MazeProblem(
    initial: MazeState,
    key: Option<MazeState>,
    goals: set<MazeState>,
    transitions: map<MazeState, map<Action, MazeState>>,
    cost: MazeState -> nat)

  /** getTransitions: the available actions out of `s` and the state each leads to. */
  function Transitions(problem: MazeProblem, s: MazeState): map<Action, MazeState> {
    if s in problem.transitions then problem.transitions[s] else map[]
  }

  /** The state reached by taking `actions` in order from `s`, or None when one is not available. */
  function Run(problem: MazeProblem, s: MazeState, actions: seq<Action>): Option<MazeState>
    decreases |actions|
  {
    if actions == [] then Some(s)
    else if actions[0] in Transitions(problem, s) then
      Run(problem, Transitions(problem, s)[actions[0]], actions[1..])
    else None
  }

  /** Taking `actions` from `s` ends in one of `targets`. */
  ghost predicate Leads(problem: MazeProblem, s: MazeState, actions: seq<Action>, targets: set<MazeState>) {
    var r := Run(problem, s, actions);
    r.Some? && r.value in targets
  }

  /** Some sequence of actions leads from `s` to one of `targets`. */
  ghost predicate Reachable(problem: MazeProblem, s: MazeState, targets: set<MazeState>) {
    exists actions :: Leads(problem, s, actions, targets)
  }

  /** Every state a search from `start` can ever see: `start` and every target of the table. */
  ghost function Universe(problem: MazeProblem, start: MazeState): set<MazeState> {
    {start} + set p, a | p in problem.transitions && a in problem.transitions[p] :: problem.transitions[p][a]
  }

  lemma TargetInUniverse(problem: MazeProblem, start: MazeState, p: MazeState, a: Action)
    requires a in Transitions(problem, p)
    ensures Transitions(problem, p)[a] in Universe(problem, start)
  {
    assert p in problem.transitions;
    var t := problem.transitions[p][a];
    assert t in set p', a' | p' in problem.transitions && a' in problem.transitions[p'] :: problem.transitions[p'][a'];
  }

  /** Running two action sequences one after the other is running their concatenation. */
  lemma {:induction false} RunAppend(problem: MazeProblem, s: MazeState, xs: seq<Action>, ys: seq<Action>)
    ensures Run(problem, s, xs + ys) ==
            (match Run(problem, s, xs)
             case None => None
             case Some(t) => Run(problem, t, ys))
    decreases |xs|
  {
    if xs == [] {
      assert xs + ys == ys;
    } else {
      assert (xs + ys)[0] == xs[0];
      assert (xs + ys)[1..] == xs[1..] + ys;
      if xs[0] in Transitions(problem, s) {
        RunAppend(problem, Transitions(problem, s)[xs[0]], xs[1..], ys);
      }
    }
  }

  /** Taking one more action after `xs` is a single transition from where `xs` ends. */
  lemma RunSnoc(problem: MazeProblem, s: MazeState, xs: seq<Action>, a: Action)
    ensures Run(problem, s, xs + [a]) ==
            (match Run(problem, s, xs)
             case None => None
             case Some(t) => if a in Transitions(problem, t) then Some(Transitions(problem, t)[a]) else None)
  {
    RunAppend(problem, s, xs, [a]);
    match Run(problem, s, xs)
    case None =>
    case Some(t) =>
      assert [a][1..] == [];
  }

  /**
    The cost of following `actions` from `s`: the sum of the costs of the
    states stepped onto, as far as the actions are available.
  */
  function PathCost(problem: MazeProblem, s: MazeState, actions: seq<Action>): nat
    decreases |actions|
  {
    if actions == [] then 0
    else if actions[0] in Transitions(problem, s) then
      var t := Transitions(problem, s)[actions[0]];
      problem.cost(t) + PathCost(problem, t, actions[1..])
    else 0
  }

  /** One more available action adds the cost of the state it steps onto. */
  lemma {:induction false} PathCostSnoc(problem: MazeProblem, s: MazeState, xs: seq<Action>, a: Action, t: MazeState)
    requires Run(problem, s, xs) == Some(t)
    requires a in Transitions(problem, t)
    ensures PathCost(problem, s, xs + [a]) == PathCost(problem, s, xs) + problem.cost(Transitions(problem, t)[a])
    decreases |xs|
  {
    if xs == [] {
      assert xs + [a] == [a];
      assert [a][1..] == [];
    } else {
      assert (xs + [a])[0] == xs[0];
      assert (xs + [a])[1..] == xs[1..] + [a];
      PathCostSnoc(problem, Transitions(problem, s)[xs[0]], xs[1..], a, t);
    }
  }
}
