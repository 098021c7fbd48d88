/** The queue-based search template shared by tree, graph and bidirectional
    search: a frontier seeded with the root, a loop that removes a node,
    goal-tests it, expands it and inserts its successors, an optional early
    goal check at insertion time, a cancellation poll per iteration and a
    small metrics record. */
module QSearch {
  import opened Problems
  import opened Nodes
  import opened Frontiers
  import opened SearchMetrics

  /** Why a search returned. `Solved(node)` names the arena index of the
      node whose solution was returned; `Exhausted` and `Canceled` both
      return the failure value. */
  datatype Status = Solved(node: nat) | Exhausted | Canceled

  datatype Option<T> = None | Some(value: T)

  /** The answer of the cancellation poll at the `k`-th test of the loop
      guard: `polls` holds the answers the caller gives, and a caller that
      has no answer left is taken to have canceled. */
  function Polled(polls: seq<bool>, k: nat): (r: bool)
    ensures k < |polls| ==> r == polls[k]
    ensures k >= |polls| ==> r
  {
    k >= |polls| || polls[k]
  }

  /** Every one of the first `k` polls answered "not canceled". */
  predicate NotCanceledBefore(polls: seq<bool>, k: nat)
  {
    forall j :: 0 <= j < k ==> !Polled(polls, j)
  }

  /** One more poll answered "not canceled" extends the run of such polls. */
  lemma NotCanceledGrows(polls: seq<bool>, k: nat)
    requires NotCanceledBefore(polls, k) && !Polled(polls, k)
    ensures NotCanceledBefore(polls, k + 1)
  {
  }

  /** The arena indices from `lo` up to `hi`, in order. */
  function Range(lo: nat, hi: nat): (r: seq<nat>)
    requires lo <= hi
    ensures |r| == hi - lo
    decreases hi - lo
  {
    if lo == hi then [] else Range(lo, hi - 1) + [hi - 1]
  }

  lemma {:induction false} RangeSplit(lo: nat, mid: nat, hi: nat)
    requires lo <= mid <= hi
    ensures Range(lo, mid) + Range(mid, hi) == Range(lo, hi)
    decreases hi - mid
  {
    if mid < hi {
      RangeSplit(lo, mid, hi - 1);
    }
  }

  /** Each arena index in `lo` up to `hi` occurs in the range once, and no
      other index occurs. */
  lemma {:induction false} OccurrencesRange(lo: nat, hi: nat, x: nat)
    requires lo <= hi
    ensures Occurrences(Range(lo, hi), x) == if lo <= x < hi then 1 else 0
    decreases hi - lo
  {
    if lo < hi {
      OccurrencesRange(lo, hi - 1, x);
      OccurrencesAppend(Range(lo, hi - 1), [hi - 1], x);
      assert Occurrences([hi - 1], x) == if x == hi - 1 then 1 else 0;
    }
  }

  /** The frontier's account after the nodes in `dequeued` have left it,
      when the nodes created so far are those at arena indices below `top`:
      every created node either still waits or has left, exactly once, and
      no other index appears; with a FIFO frontier the nodes that left,
      followed by those waiting, are the arena in creation order. */
  ghost predicate Account(kind: Discipline, frontier: seq<nat>, dequeued: seq<nat>, top: nat)
  {
    (forall x: nat :: Occurrences(frontier, x) + Occurrences(dequeued, x) == if x < top then 1 else 0) &&
    (kind == Fifo ==> dequeued + frontier == Range(0, top))
  }

  /** Every node the account holds lies inside the arena. */
  lemma Accounted(kind: Discipline, frontier: seq<nat>, dequeued: seq<nat>, top: nat, x: nat)
    requires Account(kind, frontier, dequeued, top)
    requires x in frontier
    ensures x < top
  {
    assert Occurrences(frontier, x) > 0;
  }

  /** The count half of one iteration's account: `n` moves from the
      frontier to the dequeued nodes, and the indices `base` up to `top`
      join the frontier. */
  lemma CountStep(frontier: seq<nat>, n: nat, rest: seq<nat>, dequeued: seq<nat>, base: nat, top: nat)
    requires forall x: nat :: Occurrences(frontier, x) + Occurrences(dequeued, x) == if x < base then 1 else 0
    requires frontier == [n] + rest || frontier == rest + [n]
    requires base <= top
    ensures forall x: nat ::
              Occurrences(rest + Range(base, top), x) + Occurrences(dequeued + [n], x) == if x < top then 1 else 0
  {
    forall x: nat
      ensures Occurrences(rest + Range(base, top), x) + Occurrences(dequeued + [n], x) == if x < top then 1 else 0
    {
      if frontier == [n] + rest {
        OccurrencesAppend([n], rest, x);
      } else {
        OccurrencesAppend(rest, [n], x);
      }
      assert Occurrences(frontier, x) + Occurrences(dequeued, x) == if x < base then 1 else 0;
      OccurrencesAppend(rest, Range(base, top), x);
      OccurrencesAppend(dequeued, [n], x);
      OccurrencesRange(base, top, x);
    }
  }

  lemma FifoStep(frontier: seq<nat>, n: nat, rest: seq<nat>, dequeued: seq<nat>, base: nat, top: nat)
    requires dequeued + frontier == Range(0, base)
    requires frontier == [n] + rest
    requires base <= top
    ensures (dequeued + [n]) + (rest + Range(base, top)) == Range(0, top)
  {
    RangeSplit(0, base, top);
    assert (dequeued + [n]) + (rest + Range(base, top)) == (dequeued + frontier) + Range(base, top);
  }

  /** One iteration's account: the next node `n` leaves the frontier, and
      the nodes created from `base` up to `top` join it. */
  lemma AccountStep(kind: Discipline, frontier: seq<nat>, n: nat, rest: seq<nat>, dequeued: seq<nat>,
                    base: nat, top: nat)
    requires Account(kind, frontier, dequeued, base)
    requires frontier != [] && (n, rest) == Remove(kind, frontier)
    requires base <= top
    ensures Account(kind, rest + Range(base, top), dequeued + [n], top)
  {
    if kind == Fifo {
      assert frontier == [n] + rest;
      FifoStep(frontier, n, rest, dequeued, base, top);
    } else {
      assert frontier == rest + [n];
    }
    CountStep(frontier, n, rest, dequeued, base, top);
  }

  /** Breadth-first order: with a FIFO frontier the nodes leave it in the
      order they were created, and the waiting ones are exactly the next
      ones in that order. */
  lemma FifoDequeuesInCreationOrder(frontier: seq<nat>, dequeued: seq<nat>, top: nat)
    requires Account(Fifo, frontier, dequeued, top)
    ensures |dequeued| <= top
    ensures dequeued == Range(0, |dequeued|) && frontier == Range(|dequeued|, top)
  {
    RangeSplit(0, |dequeued|, top);
    assert dequeued == (dequeued + frontier)[..|dequeued|];
    assert frontier == (dequeued + frontier)[|dequeued|..];
  }

  /** Node `i` was created by expanding one of the nodes in `expanded`. */
  ghost predicate ParentExpanded(nodes: seq<Node>, expanded: seq<nat>, i: nat)
    requires i < |nodes|
  {
    nodes[i].link.From? && nodes[i].link.parent in expanded
  }

  /** Every node but the root was created by expanding a node listed in
      `expanded`. */
  ghost predicate CreatedByExpansion(nodes: seq<Node>, expanded: seq<nat>)
  {
    forall i :: 0 < i < |nodes| ==> ParentExpanded(nodes, expanded, i)
  }

  /** Expanding node `n` and appending its successors keeps every node
      accounted for by an expansion. */
  lemma ExpansionCreates(p: Problem, nodes: seq<Node>, expanded: seq<nat>, n: nat)
    requires CreatedByExpansion(nodes, expanded) && n < |nodes|
    ensures CreatedByExpansion(nodes + Successors(p, nodes[n], n), expanded + [n])
  {
    var all := nodes + Successors(p, nodes[n], n);
    forall i | 0 < i < |all|
      ensures ParentExpanded(all, expanded + [n], i)
    {
      if i < |nodes| {
        assert ParentExpanded(nodes, expanded, i);
      }
    }
  }

  ghost predicate NotGoalAt(p: Problem, nodes: seq<Node>, i: nat)
    requires i < |nodes|
  {
    !p.isGoal(nodes[i].state)
  }

  /** None of the nodes from `lo` up to `hi` is a goal. */
  ghost predicate NoGoalIn(p: Problem, nodes: seq<Node>, lo: nat, hi: nat)
    requires hi <= |nodes|
  {
    forall i :: lo <= i < hi ==> NotGoalAt(p, nodes, i)
  }

  /** Appending nodes keeps the goal-free prefix goal-free, and a goal-free
      stretch of new nodes extends it. */
  lemma NoGoalGrows(p: Problem, nodes: seq<Node>, more: seq<Node>, top: nat)
    requires NoGoalIn(p, nodes, 0, |nodes|)
    requires |nodes| <= top <= |nodes + more| && NoGoalIn(p, nodes + more, |nodes|, top)
    ensures NoGoalIn(p, nodes + more, 0, top)
  {
    forall i | 0 <= i < top
      ensures NotGoalAt(p, nodes + more, i)
    {
      if i < |nodes| {
        assert NotGoalAt(p, nodes, i);
      }
    }
  }

  ghost predicate ExpandedNonGoalAt(p: Problem, nodes: seq<Node>, expanded: seq<nat>, k: nat)
    requires k < |expanded|
  {
    expanded[k] < |nodes| && !p.isGoal(nodes[expanded[k]].state)
  }

  /** Every node in `expanded` lies in the arena and is not a goal. */
  ghost predicate ExpandedNonGoals(p: Problem, nodes: seq<Node>, expanded: seq<nat>)
  {
    forall k :: 0 <= k < |expanded| ==> ExpandedNonGoalAt(p, nodes, expanded, k)
  }

  /** Expanding a node that is not a goal keeps the expanded nodes goal-free,
      whatever is appended to the arena. */
  lemma ExpandedNonGoalsGrow(p: Problem, nodes: seq<Node>, more: seq<Node>, expanded: seq<nat>, n: nat)
    requires ExpandedNonGoals(p, nodes, expanded)
    requires n < |nodes| && !p.isGoal(nodes[n].state)
    ensures ExpandedNonGoals(p, nodes + more, expanded + [n])
  {
    forall k | 0 <= k < |expanded| + 1
      ensures ExpandedNonGoalAt(p, nodes + more, expanded + [n], k)
    {
      if k < |expanded| {
        assert ExpandedNonGoalAt(p, nodes, expanded, k);
      }
    }
  }

  /** What holds between iterations of search's loop: the arena is well
      formed and grown only by expansions, the frontier account balances,
      and the goal test has rejected every node it was applied to. */
  ghost predicate Searching(p: Problem, kind: Discipline, early: bool, frontier: seq<nat>,
                            nodes: seq<Node>, expanded: seq<nat>)
  {
    WellFormed(p, nodes) && CreatedByExpansion(nodes, expanded) &&
    Account(kind, frontier, expanded, |nodes|) &&
    (!early ==> ExpandedNonGoals(p, nodes, expanded)) &&
    (early ==> NoGoalIn(p, nodes, 0, |nodes|))
  }

  /** What holds when search's loop stops, `found` being the goal it
      returns, if any. The arena is well formed and grown only by
      expansions. The frontier account balances: `dequeued` is `expanded`,
      plus the goal when the goal test at removal found it, and the nodes
      below `entered` are those that entered the frontier, which leaves out
      a goal found by the early check and its later siblings. The goal test
      rejected every node it was applied to, and an early goal is a child of
      the last node expanded. */
  ghost predicate Outcome(p: Problem, kind: Discipline, early: bool, frontier: seq<nat>,
                          nodes: seq<Node>, expanded: seq<nat>, found: Option<nat>,
                          dequeued: seq<nat>, entered: nat)
  {
    WellFormed(p, nodes) && CreatedByExpansion(nodes, expanded) &&
    (found.Some? ==> found.value < |nodes| && p.isGoal(nodes[found.value].state)) &&
    dequeued == (if found.Some? && !early then expanded + [found.value] else expanded) &&
    entered == (if found.Some? && early then found.value else |nodes|) &&
    Account(kind, frontier, dequeued, entered) &&
    (!early ==> ExpandedNonGoals(p, nodes, expanded)) &&
    (early ==> NoGoalIn(p, nodes, 0, entered)) &&
    (early && found.Some? && found.value != 0 ==>
       expanded != [] && nodes[found.value].link.From? &&
       nodes[found.value].link.parent == expanded[|expanded| - 1])
  }

  /** A loop that stops without a goal leaves the state it kept. */
  lemma StoppedOutcome(p: Problem, kind: Discipline, early: bool, frontier: seq<nat>,
                       nodes: seq<Node>, expanded: seq<nat>)
    requires Searching(p, kind, early, frontier, nodes, expanded)
    ensures Outcome(p, kind, early, frontier, nodes, expanded, None, expanded, |nodes|)
  {
  }

  /** The arena a search of `p` has built once it has expanded the nodes
      `expanded`, in order: the root, then the successors of each expanded
      node, in the problem's order, appended as it is expanded. */
  ghost function Arena(p: Problem, expanded: seq<nat>): (r: seq<Node>)
    ensures |r| > 0 && r[0] == RootNode(p.initialState)
    decreases |expanded|
  {
    if expanded == [] then [RootNode(p.initialState)]
    else
      var a := Arena(p, expanded[..|expanded| - 1]);
      var n := expanded[|expanded| - 1];
      if n < |a| then a + Successors(p, a[n], n) else a
  }

  /** An expansion never shrinks the arena. */
  lemma ArenaGrows(p: Problem, expanded: seq<nat>)
    requires expanded != []
    ensures |Arena(p, expanded[..|expanded| - 1])| <= |Arena(p, expanded)|
  {
  }

  /** The frontier after the expansions `expanded` when every successor is
      inserted: it starts as the root alone, and each expansion removes the
      next node and appends the new successors' indices at the tail. */
  ghost function FrontierAfter(p: Problem, kind: Discipline, expanded: seq<nat>): (r: seq<nat>)
    decreases |expanded|
  {
    if expanded == [] then [0]
    else
      var e := expanded[..|expanded| - 1];
      var f := FrontierAfter(p, kind, e);
      if f == [] then []
      else
        ArenaGrows(p, expanded);
        Remove(kind, f).1 + Range(|Arena(p, e)|, |Arena(p, expanded)|)
  }

  /** The `k`-th expanded node is the one the frontier gave back after the
      `k` expansions before it. */
  ghost predicate RemovedAt(p: Problem, kind: Discipline, expanded: seq<nat>, k: nat)
    requires k < |expanded|
  {
    var f := FrontierAfter(p, kind, expanded[..k]);
    f != [] && expanded[k] == Remove(kind, f).0
  }

  /** Every expanded node was removed from the frontier in the discipline's
      order. */
  ghost predicate RemovalOrder(p: Problem, kind: Discipline, expanded: seq<nat>)
  {
    forall k :: 0 <= k < |expanded| ==> RemovedAt(p, kind, expanded, k)
  }

  /** The run so far is the one search's loop performs: the arena holds exactly
      the root and the successors of each expanded node, the nodes were
      expanded in the frontier's removal order, and the frontier is the one
      those expansions leave; when a goal was found, the frontier is the one
      left after its removal (goal test at removal) or after the successors
      inserted ahead of it (early goal check). */
  ghost predicate Tracked(p: Problem, kind: Discipline, early: bool, frontier: seq<nat>,
                          nodes: seq<Node>, expanded: seq<nat>, found: Option<nat>)
  {
    nodes == Arena(p, expanded) && RemovalOrder(p, kind, expanded) &&
    (found == None ==> frontier == FrontierAfter(p, kind, expanded)) &&
    (found.Some? && !early ==>
       var f := FrontierAfter(p, kind, expanded);
       f != [] && found.value == Remove(kind, f).0 && frontier == Remove(kind, f).1) &&
    (found.Some? && early && expanded != [] ==>
       var e := expanded[..|expanded| - 1];
       var f := FrontierAfter(p, kind, e);
       f != [] && |Arena(p, e)| <= found.value &&
       frontier == Remove(kind, f).1 + Range(|Arena(p, e)|, found.value))
  }

  /** One more expansion, of a node of the arena while the frontier is not
      empty: the arena gains the node's successors and the frontier, after
      the removal, their indices. */
  lemma FrontierSnoc(p: Problem, kind: Discipline, expanded: seq<nat>, n: nat)
    requires FrontierAfter(p, kind, expanded) != [] && n < |Arena(p, expanded)|
    ensures (expanded + [n])[..|expanded|] == expanded
    ensures Arena(p, expanded + [n]) == Arena(p, expanded) + Successors(p, Arena(p, expanded)[n], n)
    ensures FrontierAfter(p, kind, expanded + [n]) ==
              Remove(kind, FrontierAfter(p, kind, expanded)).1 +
              Range(|Arena(p, expanded)|, |Arena(p, expanded + [n])|)
  {
    assert (expanded + [n])[..|expanded|] == expanded;
  }

  /** Before any expansion the arena is the root alone and so is the
      frontier. */
  lemma InitiallyTracked(p: Problem, kind: Discipline, early: bool, nodes: seq<Node>)
    requires WellFormed(p, nodes) && |nodes| == 1
    requires early ==> !p.isGoal(p.initialState)
    ensures Searching(p, kind, early, [0], nodes, [])
    ensures Tracked(p, kind, early, [0], nodes, [], None)
  {
    assert nodes == [nodes[0]];
    RangeSplit(0, 0, 1);
  }

  /** One more expansion of the node the frontier gives back extends the
      arena by its successors, the frontier by their indices after the
      removal, and the removal order by the node. */
  lemma TrackedStep(p: Problem, kind: Discipline, frontier: seq<nat>, nodes: seq<Node>,
                    expanded: seq<nat>, n: nat)
    requires nodes == Arena(p, expanded) && RemovalOrder(p, kind, expanded)
    requires frontier == FrontierAfter(p, kind, expanded)
    requires frontier != [] && n == Remove(kind, frontier).0 && n < |nodes|
    ensures (expanded + [n])[..|expanded|] == expanded
    ensures Arena(p, expanded + [n]) == nodes + Successors(p, nodes[n], n)
    ensures FrontierAfter(p, kind, expanded + [n]) ==
              Remove(kind, frontier).1 + Range(|nodes|, |nodes + Successors(p, nodes[n], n)|)
    ensures RemovalOrder(p, kind, expanded + [n])
  {
    FrontierSnoc(p, kind, expanded, n);
    var e := expanded + [n];
    forall k | 0 <= k < |e|
      ensures RemovedAt(p, kind, e, k)
    {
      if k < |expanded| {
        assert e[..k] == expanded[..k];
        assert RemovedAt(p, kind, expanded, k);
      }
    }
  }

  /** The front of a range is its lowest index, and the rest is the range
      one higher. */
  lemma {:induction false} RangeFront(lo: nat, hi: nat)
    requires lo < hi
    ensures Range(lo, hi)[0] == lo && Range(lo, hi)[1..] == Range(lo + 1, hi)
    decreases hi - lo
  {
    if lo + 1 < hi {
      RangeFront(lo, hi - 1);
    }
  }

  /** The expansions before the last one were in removal order too, and the
      last one was of the node the frontier gave back. */
  lemma RemovalOrderLast(p: Problem, kind: Discipline, expanded: seq<nat>, n: nat)
    requires RemovalOrder(p, kind, expanded + [n])
    ensures RemovalOrder(p, kind, expanded)
    ensures FrontierAfter(p, kind, expanded) != [] && n == Remove(kind, FrontierAfter(p, kind, expanded)).0
  {
    var x := expanded + [n];
    forall k | 0 <= k < |expanded|
      ensures RemovedAt(p, kind, expanded, k)
    {
      assert x[..k] == expanded[..k];
      assert RemovedAt(p, kind, x, k);
    }
    assert x[..|expanded|] == expanded;
    assert RemovedAt(p, kind, x, |expanded|);
  }

  /** Depth first: once a LIFO frontier has given back node `n` and `n`
      has been expanded, the next node it gives back is the newest of `n`'s
      successors. */
  lemma LifoExpandsNewestChild(p: Problem, expanded: seq<nat>, n: nat)
    requires FrontierAfter(p, Lifo, expanded) != [] && n == Remove(Lifo, FrontierAfter(p, Lifo, expanded)).0
    requires n < |Arena(p, expanded)| && Successors(p, Arena(p, expanded)[n], n) != []
    ensures FrontierAfter(p, Lifo, expanded + [n]) != []
    ensures Remove(Lifo, FrontierAfter(p, Lifo, expanded + [n])).0 == |Arena(p, expanded + [n])| - 1
  {
    FrontierSnoc(p, Lifo, expanded, n);
    var lo, top := |Arena(p, expanded)|, |Arena(p, expanded + [n])|;
    var rest := Remove(Lifo, FrontierAfter(p, Lifo, expanded)).1;
    assert Range(lo, top) == Range(lo, top - 1) + [top - 1];
    assert FrontierAfter(p, Lifo, expanded + [n]) == (rest + Range(lo, top - 1)) + [top - 1];
  }

  /** One FIFO expansion: when the nodes before `|expanded|` have been
      expanded in creation order and the frontier holds the rest of the
      arena in order, the next expansion is of node `|expanded|` and keeps
      both facts. */
  lemma FifoNext(p: Problem, expanded: seq<nat>, n: nat)
    requires expanded == Range(0, |expanded|) && |expanded| <= |Arena(p, expanded)|
    requires FrontierAfter(p, Fifo, expanded) == Range(|expanded|, |Arena(p, expanded)|)
    requires FrontierAfter(p, Fifo, expanded) != [] && n == Remove(Fifo, FrontierAfter(p, Fifo, expanded)).0
    ensures n == |expanded| && expanded + [n] == Range(0, |expanded| + 1)
    ensures |expanded| + 1 <= |Arena(p, expanded + [n])|
    ensures FrontierAfter(p, Fifo, expanded + [n]) == Range(|expanded| + 1, |Arena(p, expanded + [n])|)
  {
    var top := |Arena(p, expanded)|;
    RangeFront(|expanded|, top);
    FrontierSnoc(p, Fifo, expanded, n);
    RangeSplit(|expanded| + 1, top, |Arena(p, expanded + [n])|);
  }

  /** Breadth first: with a FIFO frontier the `k`-th expansion is of node
      `k`, so nodes are expanded in creation order, and the frontier holds
      exactly the nodes created but not yet expanded. */
  lemma {:induction false} FifoExpandsInCreationOrder(p: Problem, expanded: seq<nat>)
    requires RemovalOrder(p, Fifo, expanded)
    ensures expanded == Range(0, |expanded|) && |expanded| <= |Arena(p, expanded)|
    ensures FrontierAfter(p, Fifo, expanded) == Range(|expanded|, |Arena(p, expanded)|)
    decreases |expanded|
  {
    if expanded == [] {
      assert Range(0, 1) == [0];
    } else {
      var e := expanded[..|expanded| - 1];
      var n := expanded[|expanded| - 1];
      assert expanded == e + [n];
      RemovalOrderLast(p, Fifo, e, n);
      FifoExpandsInCreationOrder(p, e);
      FifoNext(p, e, n);
    }
  }

  class QueueSearch {
    const nodeExpander: NodeExpander
    /** The frontier of the current search, as arena indices, and the
        discipline of the queue the caller passed in. */
    var frontier: seq<nat>
    var discipline: Discipline
    var earlyGoalCheck: bool
    var metrics: Metrics

    constructor (expander: NodeExpander)
      ensures nodeExpander == expander
      ensures frontier == [] && discipline == Fifo
      ensures !earlyGoalCheck && metrics == Cleared
    {
      nodeExpander := expander;
      frontier := [];
      discipline := Fifo;
      earlyGoalCheck := false;
      metrics := Cleared;
    }

    /** setEarlyGoalCheck */
    method SetEarlyGoalCheck(state: bool)
      modifies this`earlyGoalCheck
      ensures earlyGoalCheck == state
    {
      earlyGoalCheck := state;
    }

    /** getMetrics: publishes the expander's call count as the number of
        nodes expanded and returns the record. */
    method GetMetrics() returns (m: Metrics)
      modifies this`metrics
      ensures metrics == old(metrics).(nodesExpanded := nodeExpander.counter)
      ensures m == metrics
    {
      metrics := metrics.(nodesExpanded := nodeExpander.NumOfExpandCalls());
      m := metrics;
    }

    /** clearInstrumentation: resets the expander's counter and sets all
        four metrics to 0. */
    method ClearInstrumentation()
      modifies this`metrics, nodeExpander`counter
      ensures nodeExpander.counter == 0
      ensures metrics == Cleared
    {
      nodeExpander.ResetCounter();
      metrics := metrics.(nodesExpanded := 0);
      metrics := metrics.(queueSize := 0);
      metrics := metrics.(maxQueueSize := 0);
      metrics := metrics.(pathCost := 0);
    }

    /** updateMetrics */
    method UpdateMetrics(queueSize: int)
      modifies this`metrics
      ensures metrics == Updated(old(metrics), queueSize)
    {
      metrics := metrics.(queueSize := queueSize);
      var maxQSize := metrics.maxQueueSize;
      if queueSize > maxQSize {
        metrics := metrics.(maxQueueSize := queueSize);
      }
    }

    /** getSolution: records the node's path cost and returns its actions. */
    method GetSolution(nodes: seq<Node>, i: nat) returns (solution: seq<Action>)
      requires Linked(nodes) && i < |nodes|
      modifies this`metrics
      ensures metrics == old(metrics).(pathCost := nodes[i].pathCost)
      ensures solution == SequenceOfActions(nodes, i)
    {
      metrics := metrics.(pathCost := nodes[i].pathCost);
      solution := SequenceOfActions(nodes, i);
    }

    /** addToFrontier */
    method AddToFrontier(n: nat)
      modifies this`frontier
      ensures frontier == Add(discipline, old(frontier), n)
    {
      frontier := Add(discipline, frontier, n);
    }

    /** removeFromFrontier */
    method RemoveFromFrontier() returns (n: nat)
      requires frontier != []
      modifies this`frontier
      ensures (n, frontier) == Remove(discipline, old(frontier))
    {
      var r := Remove(discipline, frontier);
      n, frontier := r.0, r.1;
    }

    /** isFrontierEmpty */
    function IsFrontierEmpty(): (empty: bool)
      reads this
      ensures empty <==> frontier == []
    {
      frontier == []
    }

    /** The `for` loop of search over the successors of the node just
        expanded, which sit at arena indices `base` up to `|tree|`. With the
        early goal check on it stops at the first successor that is a goal
        and returns it, leaving it and every later successor out of the
        frontier; otherwise every successor joins the frontier in order. */
    method InsertSuccessors(p: Problem, tree: seq<Node>, base: nat) returns (goal: Option<nat>)
      requires base <= |tree|
      modifies this`frontier
      ensures !earlyGoalCheck ==> goal == None
      ensures goal == None ==> frontier == old(frontier) + Range(base, |tree|)
      ensures goal == None && earlyGoalCheck ==> NoGoalIn(p, tree, base, |tree|)
      ensures goal.Some? ==>
                base <= goal.value < |tree| && p.isGoal(tree[goal.value].state) &&
                frontier == old(frontier) + Range(base, goal.value) &&
                NoGoalIn(p, tree, base, goal.value)
    {
      var s := base;
      while s < |tree|
        invariant base <= s <= |tree|
        invariant frontier == old(frontier) + Range(base, s)
        invariant earlyGoalCheck ==> NoGoalIn(p, tree, base, s)
      {
        if earlyGoalCheck {
          if p.isGoal(tree[s].state) {
            return Some(s);
          }
        }
        AddToFrontier(s);
        s := s + 1;
      }
      goal := None;
    }

    /** The expansion step of search's loop: expands node `n`, which has
        just left the frontier (`before` is the frontier it left), appends
        its successors to the arena and inserts them into the frontier in
        order. With the early goal check on, the first successor that is a
        goal is returned instead of being inserted, and the later ones are
        not inserted either. */
    method ExpandAndInsert(p: Problem, tree: seq<Node>, n: nat, ghost before: seq<nat>, ghost expanded: seq<nat>)
      returns (grown: seq<Node>, goal: Option<nat>)
      requires WellFormed(p, tree) && CreatedByExpansion(tree, expanded) && n < |tree|
      requires Account(discipline, before, expanded, |tree|)
      requires before != [] && (n, frontier) == Remove(discipline, before)
      requires !earlyGoalCheck ==> ExpandedNonGoals(p, tree, expanded) && !p.isGoal(tree[n].state)
      requires earlyGoalCheck ==> NoGoalIn(p, tree, 0, |tree|)
      modifies this`frontier, nodeExpander`counter
      ensures grown == tree + Successors(p, tree[n], n)
      ensures nodeExpander.counter == old(nodeExpander.counter) + 1
      ensures WellFormed(p, grown) && CreatedByExpansion(grown, expanded + [n])
      ensures !earlyGoalCheck ==> goal == None && ExpandedNonGoals(p, grown, expanded + [n])
      ensures goal == None ==> frontier == old(frontier) + Range(|tree|, |grown|)
      ensures goal == None ==> Account(discipline, frontier, expanded + [n], |grown|)
      ensures goal == None && earlyGoalCheck ==> NoGoalIn(p, grown, 0, |grown|)
      ensures goal.Some? ==>
                |tree| <= goal.value < |grown| && p.isGoal(grown[goal.value].state) &&
                frontier == old(frontier) + Range(|tree|, goal.value) &&
                grown[goal.value].link.parent == n &&
                Account(discipline, frontier, expanded + [n], goal.value) &&
                NoGoalIn(p, grown, 0, goal.value)
    {
      var successors := nodeExpander.Expand(tree[n], n, p);
      ExpandKeepsWellFormed(p, tree, n);
      ExpansionCreates(p, tree, expanded, n);
      if !earlyGoalCheck {
        ExpandedNonGoalsGrow(p, tree, successors, expanded, n);
      }
      grown := tree + successors;
      ghost var rest := frontier;
      goal := InsertSuccessors(p, grown, |tree|);
      var s := if goal.Some? then goal.value else |grown|;
      AccountStep(discipline, before, n, rest, expanded, |tree|, s);
      if earlyGoalCheck {
        NoGoalGrows(p, tree, successors, s);
      }
    }

    /** One iteration of search's `while` loop on a non-empty frontier,
        stated in the loop's terms. It removes the next node `n`. With the
        early goal check off, a goal `n` is found and is not expanded.
        Otherwise `n` is expanded, so `after` is `expanded` with `n`
        appended, and its successors are inserted as `ExpandAndInsert` says,
        unless the early check finds a goal among them. `dequeued` and
        `entered` give the frontier account afterwards. */
    method Step(p: Problem, tree: seq<Node>, ghost expanded: seq<nat>)
      returns (grown: seq<Node>, n: nat, found: Option<nat>, ghost after: seq<nat>,
               ghost dequeued: seq<nat>, ghost entered: nat)
      requires frontier != []
      requires Searching(p, discipline, earlyGoalCheck, frontier, tree, expanded)
      requires Tracked(p, discipline, earlyGoalCheck, frontier, tree, expanded, None)
      modifies this`frontier, nodeExpander`counter
      ensures n < |tree| && n == Remove(discipline, old(frontier)).0
      ensures !earlyGoalCheck && p.isGoal(tree[n].state) ==> found == Some(n)
      ensures after == if found.Some? && !earlyGoalCheck then expanded else expanded + [n]
      ensures nodeExpander.counter == old(nodeExpander.counter) + |after| - |expanded|
      ensures found == None ==> Searching(p, discipline, earlyGoalCheck, frontier, grown, after)
      ensures found == None ==> dequeued == after && entered == |grown|
      ensures found.Some? ==>
                Outcome(p, discipline, earlyGoalCheck, frontier, grown, after, found, dequeued, entered)
      ensures Tracked(p, discipline, earlyGoalCheck, frontier, grown, after, found)
      // the goal found and the new arena and frontier, case by case
      ensures found.Some? && !earlyGoalCheck ==>
                found == Some(n) && grown == tree && frontier == Remove(discipline, old(frontier)).1
      ensures found.Some? && earlyGoalCheck ==>
                grown == tree + Successors(p, tree[n], n) && |tree| <= found.value < |grown| &&
                grown[found.value].link.From? && grown[found.value].link.parent == n &&
                frontier == Remove(discipline, old(frontier)).1 + Range(|tree|, found.value)
      ensures found == None ==>
                grown == tree + Successors(p, tree[n], n) &&
                frontier == Remove(discipline, old(frontier)).1 + Range(|tree|, |grown|)
    {
      ghost var before := frontier;
      n := RemoveFromFrontier();
      Accounted(discipline, before, expanded, |tree|, n);
      TrackedStep(p, discipline, before, tree, expanded, n);
      if !earlyGoalCheck {
        if p.isGoal(tree[n].state) {
          AccountStep(discipline, before, n, frontier, expanded, |tree|, |tree|);
          assert frontier + Range(|tree|, |tree|) == frontier;
          return tree, n, Some(n), expanded, expanded + [n], |tree|;
        }
      }
      grown, found := ExpandAndInsert(p, tree, n, before, expanded);
      after := expanded + [n];
      dequeued, entered := after, if found.Some? then found.value else |grown|;
    }

    /** The `while` loop of search, entered with the root alone in the arena
        and in the frontier. */
    method Loop(p: Problem, polls: seq<bool>, tree: seq<Node>)
      returns (grown: seq<Node>, found: Option<nat>, ghost expanded: seq<nat>,
               ghost dequeued: seq<nat>, ghost entered: nat)
      requires WellFormed(p, tree) && |tree| == 1 && frontier == [0]
      requires nodeExpander.counter == 0
      requires earlyGoalCheck ==> !p.isGoal(p.initialState)
      modifies this`frontier, nodeExpander`counter
      ensures Outcome(p, discipline, earlyGoalCheck, frontier, grown, expanded, found, dequeued, entered)
      ensures Tracked(p, discipline, earlyGoalCheck, frontier, grown, expanded, found)
      ensures nodeExpander.counter == |expanded|
      ensures found == None ==> frontier == [] || Polled(polls, |expanded|)
      ensures NotCanceledBefore(polls, |expanded|)
      ensures found.Some? && !earlyGoalCheck ==> !Polled(polls, |expanded|)
      ensures !earlyGoalCheck && p.isGoal(p.initialState) && !Polled(polls, 0) ==>
                found == Some(0) && expanded == []
    {
      grown := tree;
      expanded := [];
      InitiallyTracked(p, discipline, earlyGoalCheck, tree);
      var iter := 0;
      while !IsFrontierEmpty() && !Polled(polls, iter)
        invariant Searching(p, discipline, earlyGoalCheck, frontier, grown, expanded)
        invariant Tracked(p, discipline, earlyGoalCheck, frontier, grown, expanded, None)
        invariant !earlyGoalCheck && p.isGoal(p.initialState) ==> iter == 0 && frontier == [0]
        invariant nodeExpander.counter == |expanded| == iter
        invariant NotCanceledBefore(polls, iter)
        decreases |polls| - iter
      {
        NotCanceledGrows(polls, iter);
        var n, goal;
        ghost var after, dq, en;
        grown, n, goal, after, dq, en := Step(p, grown, expanded);
        if goal.Some? {
          found, expanded, dequeued, entered := goal, after, dq, en;
          return;
        }
        expanded := after;
        iter := iter + 1;
      }
      found, dequeued, entered := None, expanded, |grown|;
      StoppedOutcome(p, discipline, earlyGoalCheck, frontier, grown, expanded);
    }

    /** The part of search after the metrics are cleared, starting from the
        arena holding only the root and an empty frontier: the early goal
        test of the root, then the root's insertion and the `while` loop,
        which runs until the frontier is empty, the poll cancels, or a goal
        is found (`found`). `expanded` lists the nodes passed to the
        expander, `dequeued` the nodes removed from the frontier, in order,
        and the nodes at arena indices below `entered` are those that
        entered the frontier. */
    method Run(p: Problem, polls: seq<bool>, tree: seq<Node>)
      returns (grown: seq<Node>, found: Option<nat>, ghost expanded: seq<nat>,
               ghost dequeued: seq<nat>, ghost entered: nat)
      requires WellFormed(p, tree) && |tree| == 1 && frontier == []
      requires nodeExpander.counter == 0
      modifies this`frontier, nodeExpander`counter
      ensures Outcome(p, discipline, earlyGoalCheck, frontier, grown, expanded, found, dequeued, entered)
      ensures Tracked(p, discipline, earlyGoalCheck, frontier, grown, expanded, found)
      ensures nodeExpander.counter == |expanded|
      ensures found == None ==> frontier == [] || Polled(polls, |expanded|)
      ensures NotCanceledBefore(polls, |expanded|)
      ensures found.Some? && !earlyGoalCheck ==> !Polled(polls, |expanded|)
      ensures earlyGoalCheck && p.isGoal(p.initialState) ==>
                found == Some(0) && frontier == [] && expanded == []
      ensures !earlyGoalCheck && p.isGoal(p.initialState) && !Polled(polls, 0) ==>
                found == Some(0) && expanded == []
    {
      if earlyGoalCheck {
        if p.isGoal(tree[0].state) {
          assert tree == [tree[0]];
          return tree, Some(0), [], [], 0;
        }
      }
      AddToFrontier(0);
      grown, found, expanded, dequeued, entered := Loop(p, polls, tree);
    }

    /** search: runs the template on `p` with a fresh frontier of discipline
        `kind`. Besides the returned actions, the ghost results describe the
        run: `nodes` is the arena of every node created (node `i` entered the
        frontier as the `i`-th one, unless the early goal check stopped the
        run first), `expanded` the arena indices passed to the expander, in
        order, and `status` why the run ended. */
    method Search(p: Problem, kind: Discipline, polls: seq<bool>)
      returns (solution: seq<Action>, ghost nodes: seq<Node>, ghost expanded: seq<nat>,
               ghost dequeued: seq<nat>, ghost entered: nat, ghost status: Status)
      modifies this, nodeExpander
      ensures discipline == kind && earlyGoalCheck == old(earlyGoalCheck)
      ensures WellFormed(p, nodes)
      // the outcome
      ensures solution == [] <==> !status.Solved?
      ensures status.Solved? ==>
                status.node < |nodes| && p.isGoal(nodes[status.node].state) &&
                solution == SequenceOfActions(nodes, status.node)
      ensures solution != [] ==> Solves(p, solution)
      ensures status == Exhausted ==> frontier == []
      ensures status == Canceled ==> frontier != [] && Polled(polls, |expanded|)
      // the run went on only while the poll answered "not canceled"
      ensures NotCanceledBefore(polls, |expanded|)
      ensures status.Solved? && !earlyGoalCheck ==> !Polled(polls, |expanded|)
      // the metrics
      ensures metrics == if status.Solved? then Cleared.(pathCost := nodes[status.node].pathCost) else Cleared
      ensures nodeExpander.counter == |expanded|
      // a goal root
      ensures earlyGoalCheck && p.isGoal(p.initialState) ==>
                status == Solved(0) && solution == [NoOp] && frontier == [] && expanded == []
      ensures !earlyGoalCheck && p.isGoal(p.initialState) && !Polled(polls, 0) ==>
                status == Solved(0) && solution == [NoOp] && expanded == []
      // which nodes entered the frontier, and which left it for expansion
      ensures CreatedByExpansion(nodes, expanded)
      // the arena holds exactly the successors of the expanded nodes, which
      // left the frontier in its discipline's order
      ensures nodes == Arena(p, expanded) && RemovalOrder(p, kind, expanded)
      ensures !status.Solved? ==> frontier == FrontierAfter(p, kind, expanded)
      ensures status.Solved? && !earlyGoalCheck ==>
                FrontierAfter(p, kind, expanded) != [] &&
                (status.node, frontier) == Remove(kind, FrontierAfter(p, kind, expanded))
      ensures status.Solved? && earlyGoalCheck && expanded != [] ==>
                var e := expanded[..|expanded| - 1];
                FrontierAfter(p, kind, e) != [] && |Arena(p, e)| <= status.node &&
                frontier == Remove(kind, FrontierAfter(p, kind, e)).1 + Range(|Arena(p, e)|, status.node)
      ensures Account(kind, frontier, dequeued, entered)
      ensures dequeued == if status.Solved? && !earlyGoalCheck then expanded + [status.node] else expanded
      ensures entered == if status.Solved? && earlyGoalCheck then status.node else |nodes|
      // when goals are tested
      ensures !earlyGoalCheck ==> ExpandedNonGoals(p, nodes, expanded)
      ensures earlyGoalCheck ==> NoGoalIn(p, nodes, 0, entered)
      ensures earlyGoalCheck && status.Solved? && status.node != 0 ==>
                expanded != [] && nodes[status.node].link.parent == expanded[|expanded| - 1]
    {
      frontier := [];
      discipline := kind;
      ClearInstrumentation();
      var tree := [nodeExpander.CreateRootNode(p.initialState)];
      var grown, found;
      grown, found, expanded, dequeued, entered := Run(p, polls, tree);
      nodes := grown;
      if found.Some? {
        GoalNodeSolution(p, grown, found.value);
        solution := GetSolution(grown, found.value);
        status := Solved(found.value);
      } else {
        solution := Failure();
        status := if frontier == [] then Exhausted else Canceled;
      }
    }
  }
}
