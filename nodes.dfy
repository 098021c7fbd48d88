/** Search-tree nodes, the node expander and the construction of a solution
    from a node. Nodes live in an arena (`seq<Node>`) and refer to their
    parent by index; a node is never changed once created, the arena only
    grows. */
module Nodes {
  import opened Problems

  /** How a node was reached: it is the root, or it was produced from the
      node at index `parent` by the action `action`. */
  datatype Link = Root | From(parent: nat, action: int)

  datatype Node = Node(state: int, link: Link, pathCost: nat, depth: nat)

  /** The expander's root node: no parent, cost 0, depth 0. */
  function RootNode(s: int): (r: Node)
  {
    Node(s, Root, 0, 0)
  }

  /** The child of `parent` (stored at `index`) reached by action `a`. */
  function ChildNode(p: Problem, parent: Node, index: nat, a: int): (r: Node)
  {
    var t := p.result(parent.state, a);
    Node(t, From(index, a), parent.pathCost + p.stepCost(parent.state, a, t), parent.depth + 1)
  }

  /** Every parent index points to an earlier node, so parent links never
      form a cycle. */
  predicate Linked(nodes: seq<Node>)
  {
    forall i :: 0 <= i < |nodes| && nodes[i].link.From? ==> nodes[i].link.parent < i
  }

  /** Node `i` (not the root) is the child its link describes, by an action
      the problem offers in the parent's state. */
  predicate ChildOf(p: Problem, nodes: seq<Node>, i: nat)
    requires i < |nodes|
  {
    nodes[i].link.From? && nodes[i].link.parent < i &&
    var q := nodes[i].link.parent;
    nodes[i].link.action in p.actions(nodes[q].state) &&
    nodes[i] == ChildNode(p, nodes[q], q, nodes[i].link.action)
  }

  /** An arena built by one search of `p`: the root for the initial state at
      index 0, every other node a child of an earlier one. */
  predicate WellFormed(p: Problem, nodes: seq<Node>)
  {
    |nodes| > 0 && nodes[0] == RootNode(p.initialState) && Linked(nodes) &&
    forall i :: 0 < i < |nodes| ==> ChildOf(p, nodes, i)
  }

  /** The actions on the path from the root to node `i`, root first. */
  function PathActions(nodes: seq<Node>, i: nat): (r: seq<int>)
    requires Linked(nodes) && i < |nodes|
    ensures r == [] <==> nodes[i].link.Root?
    ensures nodes[i].link.From? ==> r[|r| - 1] == nodes[i].link.action
    decreases i
  {
    match nodes[i].link
    case Root => []
    case From(q, a) => PathActions(nodes, q) + [a]
  }

  /** SearchUtils.getSequenceOfActions: the single `NoOp` for a root node,
      otherwise the actions from the root to the node. */
  function SequenceOfActions(nodes: seq<Node>, i: nat): (r: seq<Action>)
    requires Linked(nodes) && i < |nodes|
    ensures r != []
    ensures r == [NoOp] <==> nodes[i].link.Root?
  {
    if nodes[i].link.Root? then [NoOp]
    else
      var m := Moves(PathActions(nodes, i));
      assert m[0].Do?;
      m
  }

  /** SearchUtils.failure: the empty list of actions, which solves no
      problem. */
  function Failure(): (r: seq<Action>)
    ensures forall p: Problem :: !Solves(p, r)
  {
    []
  }

  /** Replaying the path to a node of a well-formed arena from the initial
      state takes applicable actions, ends in the node's state, costs the
      node's path cost and has the node's depth as its length. */
  lemma {:induction false} PathFacts(p: Problem, nodes: seq<Node>, i: nat)
    requires WellFormed(p, nodes) && i < |nodes|
    ensures Applicable(p, p.initialState, PathActions(nodes, i))
    ensures Walk(p, p.initialState, PathActions(nodes, i)) == nodes[i].state
    ensures CostAlong(p, p.initialState, PathActions(nodes, i)) == nodes[i].pathCost
    ensures |PathActions(nodes, i)| == nodes[i].depth
    decreases i
  {
    if i > 0 {
      assert ChildOf(p, nodes, i);
      var q, a := nodes[i].link.parent, nodes[i].link.action;
      PathFacts(p, nodes, q);
      WalkSnoc(p, p.initialState, PathActions(nodes, q), a);
    }
  }

  /** The solution built for a goal node solves the problem. */
  lemma GoalNodeSolution(p: Problem, nodes: seq<Node>, i: nat)
    requires WellFormed(p, nodes) && i < |nodes| && p.isGoal(nodes[i].state)
    ensures Solves(p, SequenceOfActions(nodes, i))
  {
    PathFacts(p, nodes, i);
    if nodes[i].link.From? {
      MovesSolve(p, PathActions(nodes, i));
    }
  }

  /** NodeExpander.expand: one child per action the problem offers in the
      node's state, in the problem's order, each pointing back to `index`. */
  function Successors(p: Problem, node: Node, index: nat): (r: seq<Node>)
    ensures |r| == |p.actions(node.state)|
    ensures forall k :: 0 <= k < |r| ==>
              r[k].link == From(index, p.actions(node.state)[k]) &&
              r[k].state == p.result(node.state, p.actions(node.state)[k]) &&
              r[k].pathCost == node.pathCost + p.stepCost(node.state, p.actions(node.state)[k], r[k].state) &&
              r[k].depth == node.depth + 1
  {
    var acts := p.actions(node.state);
    seq(|acts|, k requires 0 <= k < |acts| => ChildNode(p, node, index, acts[k]))
  }

  /** Appending the successors of one of its nodes keeps an arena well
      formed. */
  lemma ExpandKeepsWellFormed(p: Problem, nodes: seq<Node>, i: nat)
    requires WellFormed(p, nodes) && i < |nodes|
    ensures WellFormed(p, nodes + Successors(p, nodes[i], i))
  {
    var succ := Successors(p, nodes[i], i);
    var acts := p.actions(nodes[i].state);
    var all := nodes + succ;
    forall j | 0 < j < |all|
      ensures ChildOf(p, all, j)
    {
      if j < |nodes| {
        assert ChildOf(p, nodes, j);
      } else {
        var k := j - |nodes|;
        assert all[j] == succ[k] == ChildNode(p, nodes[i], i, acts[k]);
        assert all[i] == nodes[i];
      }
    }
  }

  /** The node expander of one search: it builds children and counts its
      `expand` calls, which back the nodes-expanded metric. */
  class NodeExpander {
    var counter: nat

    constructor ()
      ensures counter == 0
    {
      counter := 0;
    }

    /** createRootNode */
    function CreateRootNode(s: int): (r: Node)
      ensures r.link.Root? && r.state == s && r.pathCost == 0 && r.depth == 0
    {
      RootNode(s)
    }

    /** expand: the node's successors; the counter goes up by one per call,
        not per child. */
    method Expand(node: Node, index: nat, p: Problem) returns (successors: seq<Node>)
      modifies this`counter
      ensures successors == Successors(p, node, index)
      ensures counter == old(counter) + 1
    {
      successors := Successors(p, node, index);
      counter := counter + 1;
    }

    /** getNumOfExpandCalls */
    function NumOfExpandCalls(): (r: nat)
      reads this
      ensures r == counter
    {
      counter
    }

    /** resetCounter */
    method ResetCounter()
      modifies this`counter
      ensures counter == 0
    {
      counter := 0;
    }
  }
}
