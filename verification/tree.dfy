/**
  The node of the search tree in agents/agent_mcts/tree.py.

  A node is a value: `parent` holds the parent node as it was when the child
  was built, and nothing links a parent back to its children except the
  `children` list. `value` and `uctScore` are carried but never computed.
*/
module Tree {
  import opened Wrappers
  import opened GameBoard

  datatype TreeNode = TreeNode(
    board: Board,
    previousAction: Option<int>,
    parent: Option<TreeNode>,
    player: Option<int>,
    children: seq<TreeNode>,
    value: real,
    wins: int,
    visits: int,
    uctScore: real,
    expandedActions: seq<int>)

  /** The constructor: the given board, action, parent and player, no children, every counter zero. */
  function NewTreeNode(board: Board, previousAction: Option<int>, parent: Option<TreeNode>, player: Option<int>): (n: TreeNode)
    ensures n.board == board && n.previousAction == previousAction && n.parent == parent && n.player == player
    ensures n.children == [] && n.expandedActions == []
    ensures n.value == 0.0 && n.uctScore == 0.0 && n.wins == 0 && n.visits == 0
  {
    TreeNode(board, previousAction, parent, player, [], 0.0, 0, 0, 0.0, [])
  }

  /** `add_child`: the child goes last, the earlier children stay in order, and nothing else changes. */
  function AddChild(n: TreeNode, child: TreeNode): (m: TreeNode)
    ensures |m.children| == |n.children| + 1
    ensures m.children[..|n.children|] == n.children && m.children[|n.children|] == child
    ensures m.board == n.board && m.previousAction == n.previousAction && m.parent == n.parent && m.player == n.player
    ensures m.value == n.value && m.wins == n.wins && m.visits == n.visits && m.uctScore == n.uctScore
    ensures m.expandedActions == n.expandedActions
  {
    n.(children := n.children + [child])
  }

  /** `is_fully_expanded`: at least `count` actions have been expanded. */
  predicate IsFullyExpanded(n: TreeNode, count: int) {
    |n.expandedActions| >= count
  }

  /** `add_child` leaves the child exactly as given: in particular its `parent` is not set. */
  lemma AddChildKeepsChild(n: TreeNode, child: TreeNode)
    ensures AddChild(n, child).children[|n.children|].parent == child.parent
    ensures child in AddChild(n, child).children
  {
  }

  /** The children of `n` after adding `cs` one at a time, in order. */
  function AddChildren(n: TreeNode, cs: seq<TreeNode>): TreeNode
    decreases |cs|
  {
    if |cs| == 0 then n else AddChildren(AddChild(n, cs[0]), cs[1..])
  }

  /**
    Repeated `add_child` keeps every child, duplicates included, in the order
    added, and touches no other field.
  */
  lemma {:induction false} AddChildrenAppends(n: TreeNode, cs: seq<TreeNode>)
    ensures AddChildren(n, cs).children == n.children + cs
    ensures AddChildren(n, cs) == n.(children := n.children + cs)
    decreases |cs|
  {
    if |cs| > 0 {
      var m := AddChild(n, cs[0]);
      AddChildrenAppends(m, cs[1..]);
      assert m.children + cs[1..] == n.children + cs;
    }
  }

  /** A fresh node is fully expanded exactly for counts of zero or less. */
  lemma NewNodeFullyExpanded(board: Board, previousAction: Option<int>, parent: Option<TreeNode>, player: Option<int>, count: int)
    ensures IsFullyExpanded(NewTreeNode(board, previousAction, parent, player), count) <==> count <= 0
  {
  }

  /** Adding children does not change whether a node is fully expanded. */
  lemma AddChildKeepsExpansion(n: TreeNode, child: TreeNode, count: int)
    ensures IsFullyExpanded(AddChild(n, child), count) <==> IsFullyExpanded(n, count)
  {
  }

  /** Being fully expanded for a count implies it for every smaller count. */
  lemma FullyExpandedDownward(n: TreeNode, count: int, smaller: int)
    requires smaller <= count
    ensures IsFullyExpanded(n, count) ==> IsFullyExpanded(n, smaller)
  {
  }

  /** Expanding more actions keeps a fully expanded node fully expanded: the test is `>=`, not `==`. */
  lemma FullyExpandedStays(n: TreeNode, more: seq<int>, count: int)
    ensures IsFullyExpanded(n, count) ==> IsFullyExpanded(n.(expandedActions := n.expandedActions + more), count)
  {
  }
}
