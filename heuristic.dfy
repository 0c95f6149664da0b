/**
  The heuristic the search attaches to every child: the Manhattan distance to
  the nearest goal state, starting from the ceiling 1000000.
*/
module Heuristic {
  import opened Maze

  /** The value a child starts from before any goal is looked at. */
  const Ceiling: int := 1000000

  function Abs(x: int): int {
    if x < 0 then -x else x
  }

  /** getManhattanDistance: the number of grid steps between two cells when walls are ignored. */
  function ManhattanDistance(current: MazeState, goal: MazeState): (d: int)
    ensures d >= 0
    ensures d == 0 <==> current == goal
  {
    Abs(current.col - goal.col) + Abs(current.row - goal.row)
  }

  lemma ManhattanSymmetric(a: MazeState, b: MazeState)
    ensures ManhattanDistance(a, b) == ManhattanDistance(b, a)
  {
  }

  /**
    `v` is what the child loop leaves in `value`: the least Manhattan distance
    from `s` to a state of `goal`, or the ceiling when no goal is nearer.
  */
  ghost predicate IsNearestGoalValue(s: MazeState, goal: set<MazeState>, v: int) {
    && v <= Ceiling
    && (forall g :: g in goal ==> v <= ManhattanDistance(s, g))
    && (v == Ceiling || exists g :: g in goal && v == ManhattanDistance(s, g))
  }

  /** The description above leaves exactly one value. */
  lemma NearestGoalValueUnique(s: MazeState, goal: set<MazeState>, v: int, w: int)
    requires IsNearestGoalValue(s, goal, v) && IsNearestGoalValue(s, goal, w)
    ensures v == w
  {
    assert v <= w by {
      if w != Ceiling {
        var g :| g in goal && w == ManhattanDistance(s, g);
      }
    }
    assert w <= v by {
      if v != Ceiling {
        var g :| g in goal && v == ManhattanDistance(s, g);
      }
    }
  }

  /** The value is never negative, and it is zero exactly on a goal state. */
  lemma NearestGoalValueZero(s: MazeState, goal: set<MazeState>, v: int)
    requires IsNearestGoalValue(s, goal, v)
    ensures 0 <= v
    ensures v == 0 <==> s in goal
  {
    if v != Ceiling {
      var g :| g in goal && v == ManhattanDistance(s, g);
    }
    if s in goal {
      assert ManhattanDistance(s, s) == 0;
    }
  }

  /** With no goal states, or none nearer than the ceiling, the value stays at the ceiling. */
  lemma NearestGoalValueCeiling(s: MazeState, goal: set<MazeState>, v: int)
    requires IsNearestGoalValue(s, goal, v)
    requires forall g :: g in goal ==> ManhattanDistance(s, g) >= Ceiling
    ensures v == Ceiling
  {
  }

  /** The heuristic loop over the goal states (visited in an unspecified order). */
  method NearestGoalValue(child: MazeState, goal: set<MazeState>) returns (value: int)
    ensures IsNearestGoalValue(child, goal, value)
  {
    value := Ceiling;
    var remaining := goal;
    while remaining != {}
      invariant remaining <= goal
      invariant value <= Ceiling
      invariant forall g :: g in goal - remaining ==> value <= ManhattanDistance(child, g)
      invariant value == Ceiling || exists g :: g in goal - remaining && value == ManhattanDistance(child, g)
      decreases remaining
    {
      var st :| st in remaining;
      if ManhattanDistance(child, st) < value {
        value := ManhattanDistance(child, st);
      }
      remaining := remaining - {st};
    }
  }
}
