/**
  The nodes of the search tree (SearchTreeNode). A node never changes after it
  is built, so it is a value: the root built for the initial state, or a child
  that records the action that led to it, its parent, its heuristic `value`,
  the `cost` of stepping onto its state and its accumulated `distance`.
*/
module SearchTree {
  import opened Maze

  datatype SearchTreeNode =
    | Root(state: MazeState)
    | Child(state: MazeState, action: Action, parent: SearchTreeNode, value: int, cost: int, distance: int)
  {
    /** The priority the frontier orders nodes by; the root is built with value 0. */
    function Value(): int {
      if Root? then 0 else value
    }

    /** The distance from the start; the root is built with distance 0. */
    function Distance(): int {
      if Root? then 0 else distance
    }
  }

  /** The actions recorded along the parent chain, root first. */
  function PathActions(n: SearchTreeNode): seq<Action> {
    match n
    case Root(_) => []
    case Child(_, a, p, _, _, _) => PathActions(p) + [a]
  }

  /** The number of non-root nodes on the parent chain, this one included. */
  function Depth(n: SearchTreeNode): nat {
    match n
    case Root(_) => 0
    case Child(_, _, p, _, _, _) => 1 + Depth(p)
  }

  /** The node `k` parent links above `n`. */
  function Ancestor(n: SearchTreeNode, k: nat): SearchTreeNode
    requires k <= Depth(n)
  {
    if k == 0 then n else Ancestor(n.parent, k - 1)
  }

  /** One action per non-root node on the chain; in particular the root gives none. */
  lemma {:induction false} PathActionsLength(n: SearchTreeNode)
    ensures |PathActions(n)| == Depth(n)
  {
    match n
    case Root(_) =>
    case Child(_, _, p, _, _, _) => PathActionsLength(p);
  }

  /**
    Root-first order: the action of the node `k` links above `n` stands at
    position Depth(n) - 1 - k.
  */
  lemma {:induction false} PathActionsAt(n: SearchTreeNode, k: nat)
    requires k < Depth(n)
    ensures Ancestor(n, k).Child?
    ensures |PathActions(n)| == Depth(n)
    ensures PathActions(n)[Depth(n) - 1 - k] == Ancestor(n, k).action
  {
    PathActionsLength(n);
    PathActionsLength(n.parent);
    if k > 0 {
      PathActionsAt(n.parent, k - 1);
    }
  }
}
