/** A search problem as the search engine sees it: a transition system over
    `int` states whose actions are `int` labels, and what it means for a
    list of actions to solve it. */
module Problems {

  /** An action of a returned solution. `NoOp` is the sentinel that stands
      for "the initial state is already a goal, no move is needed". */
  datatype Action = NoOp | Do(act: int)

  /** The problem's collaborators: the initial state, the ordered list of
      actions applicable in a state, the transition function, the step cost
      and the goal test. */
  datatype Problem = Problem(
    initialState: int,
    actions: int -> seq<int>,
    result: (int, int) -> int,
    stepCost: (int, int, int) -> nat,
    isGoal: int -> bool)

  /** The state reached from `s` by taking `labels` in order. */
  function Walk(p: Problem, s: int, labels: seq<int>): (r: int)
    decreases |labels|
  {
    if labels == [] then s else Walk(p, p.result(s, labels[0]), labels[1..])
  }

  /** Whether each label is one of the actions the problem offers in the
      state it is taken from. */
  predicate Applicable(p: Problem, s: int, labels: seq<int>)
    decreases |labels|
  {
    labels == [] ||
    (labels[0] in p.actions(s) && Applicable(p, p.result(s, labels[0]), labels[1..]))
  }

  /** The sum of the step costs along `labels` from `s`. */
  function CostAlong(p: Problem, s: int, labels: seq<int>): (r: nat)
    decreases |labels|
  {
    if labels == [] then 0
    else
      var t := p.result(s, labels[0]);
      p.stepCost(s, labels[0], t) + CostAlong(p, t, labels[1..])
  }

  /** Taking one more action at the end of a walk. */
  lemma {:induction false} WalkSnoc(p: Problem, s: int, labels: seq<int>, a: int)
    ensures Walk(p, s, labels + [a]) == p.result(Walk(p, s, labels), a)
    ensures Applicable(p, s, labels + [a]) <==>
              Applicable(p, s, labels) && a in p.actions(Walk(p, s, labels))
    ensures CostAlong(p, s, labels + [a]) ==
              CostAlong(p, s, labels) + p.stepCost(Walk(p, s, labels), a, p.result(Walk(p, s, labels), a))
    decreases |labels|
  {
    if labels != [] {
      assert (labels + [a])[0] == labels[0];
      assert (labels + [a])[1..] == labels[1..] + [a];
      WalkSnoc(p, p.result(s, labels[0]), labels[1..], a);
    }
  }

  /** The labels of a solution made only of `Do` actions. */
  function Labels(sol: seq<Action>): (r: seq<int>)
    requires forall k :: 0 <= k < |sol| ==> sol[k].Do?
    ensures |r| == |sol|
    ensures forall k :: 0 <= k < |r| ==> sol[k] == Do(r[k])
  {
    seq(|sol|, k requires 0 <= k < |sol| => sol[k].act)
  }

  /** The solution that takes the actions `labels` in order. */
  function Moves(labels: seq<int>): (r: seq<Action>)
    ensures |r| == |labels|
    ensures forall k :: 0 <= k < |r| ==> r[k] == Do(labels[k])
  {
    seq(|labels|, k requires 0 <= k < |labels| => Do(labels[k]))
  }

  /** `sol` solves `p`: either it is the single `NoOp` and the initial state
      is a goal, or it is a non-empty list of applicable actions whose replay
      from the initial state ends in a goal state. */
  predicate Solves(p: Problem, sol: seq<Action>)
  {
    (sol == [NoOp] && p.isGoal(p.initialState)) ||
    (sol != [] && (forall k :: 0 <= k < |sol| ==> sol[k].Do?) &&
     Applicable(p, p.initialState, Labels(sol)) &&
     p.isGoal(Walk(p, p.initialState, Labels(sol))))
  }

  /** A list of actions taking the initial state to a goal state is a
      solution once wrapped as moves; the empty list, which the search
      returns for failure, never is. */
  lemma MovesSolve(p: Problem, labels: seq<int>)
    requires labels != []
    ensures Solves(p, Moves(labels)) <==>
              Applicable(p, p.initialState, labels) && p.isGoal(Walk(p, p.initialState, labels))
    ensures !Solves(p, [])
  {
    assert Labels(Moves(labels)) == labels;
    assert Moves(labels) != [NoOp] by { assert Moves(labels)[0].Do?; }
  }
}
