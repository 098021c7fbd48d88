# Queue-based search template (aima-java `QueueSearch`)

This project models `QueueSearch`, the base class of AIMA's tree, graph
and bidirectional search. Its `search` method is a template. It seeds a
frontier with the problem's root node. It then repeatedly removes a node,
goal-tests it, expands it and inserts the successors, until the frontier
is empty, the running thread is canceled or a goal is found. An optional
*early goal check* moves the goal test from removal time to insertion
time. The class also keeps a small metrics record: nodes expanded, queue
size, maximum queue size and path cost.

The model is imperative, like the source. `QSearch.QueueSearch` is a class
with the source's fields: the node expander, the frontier, the early-goal
flag and the metrics. Its methods update those fields in place.

- **Nodes.** Search-tree nodes live in an arena (`seq<Node>`), and a node
  names its parent by arena index. The frontier holds arena indices.
- **Frontier primitives.** `addToFrontier`, `removeFromFrontier` and
  `isFrontierEmpty` are the source's pluggable primitives. They are
  modelled for the two plain queue disciplines: FIFO (breadth first) and
  LIFO (depth first).
- **Structure of `search`.** The one Java method is split along its own
  structure:
  - `Search`: clear the metrics, create the root, build the result.
  - `Run`: the early goal test of the root, then the root's insertion.
  - `Loop`: the `while` loop.
  - `Step`: one iteration (remove, then goal-test at removal).
  - `ExpandAndInsert`: the expansion.
  - `InsertSuccessors`: the `for` loop over the successors.
- **Ghost record of a run.** Besides the returned actions, `Search`
  returns ghost values that describe the run:
  - `nodes`: the arena;
  - `expanded`: the nodes passed to the expander, in order;
  - `dequeued`: the nodes removed from the frontier, in order;
  - `entered`: the number of nodes that entered the frontier (arena indices
    below it);
  - `status`: why the run ended (`Solved`, `Exhausted` or `Canceled`).

Its contract states:

- A non-empty result is the action sequence of a goal node, and it solves
  the problem. A run that ends because the frontier is empty or the thread
  is canceled returns the empty failure list.
- With the early check on, a goal root is answered with `[NoOp]` before
  anything is inserted or expanded.
- With the early check off, no goal node is ever expanded.
- With the early check on, no node that entered the frontier is a goal.
  The goal that is returned, and every later successor of the same
  expansion, never enter it.
- Every node except the root was created by expanding an expanded node.
- The run is the one the source performs. The arena is exactly the root
  followed by the successors of each expanded node, in the problem's order
  (`Arena`). Each expanded node is the one the frontier gave back after the
  expansions before it (`RemovalOrder`). The frontier is the one those
  expansions leave (`FrontierAfter`). So a FIFO search expands nodes in
  creation order (`FifoExpandsInCreationOrder`). A LIFO search expands the
  newest child of the node it just expanded (`LifoExpandsNewestChild`).
- Every node that entered the frontier is accounted for exactly once: it
  is still waiting there or it has been dequeued, and no other index ever
  appears. With a FIFO frontier, nodes leave in creation order
  (`FifoDequeuesInCreationOrder`).
- The loop went on only while the cancellation test answered "not
  canceled": every poll before the last expansion said so, and so did the
  poll before the iteration that found a goal at removal time.
- At the end, the metrics are all 0 except `pathCost`, which holds the
  returned node's path cost. The expander's counter equals the number of
  expansions.

## Model

| member | source | states |
|---|---|---|
| QSearch.QueueSearch.Search | aima-core/src/main/java/aima/core/search/framework/qsearch/QueueSearch.java:59-92 | The result is empty exactly when no goal was returned. A returned goal's action sequence solves the problem. An empty frontier or a cancellation ends in failure. Early check on: a goal root is answered with [NoOp] and nothing is inserted or expanded. Early check off: the goal is never expanded. Early check on: the goal and later siblings never enter the frontier, and the goal is a child of the last expanded node. Every node that entered the frontier is still waiting or was dequeued, exactly once (FIFO: in creation order). Every poll before the last expansion answered "not canceled", and with the early check off so did the poll before a goal was removed. The arena is exactly Arena(p, expanded): the root and the successors of each expanded node in order. The nodes were expanded in the frontier's removal order. On failure the frontier is FrontierAfter(expanded). With the early check off, the goal is the next node that frontier gives back. With it on, the frontier is what the last removal left plus the successors ahead of the goal. Metrics are cleared except the returned node's path cost. The expand counter equals the number of expansions. |
| QSearch.QueueSearch.Run | aima-core/src/main/java/aima/core/search/framework/qsearch/QueueSearch.java:63-91 | Early check on and goal root: returns the root with nothing inserted or expanded. Otherwise it inserts the root and gives the loop's outcome, with the same accounting as Search: a failure means an empty frontier or a canceled poll, every poll before the last expansion answered "not canceled", and with the early check off so did the poll before a goal was removed. The arena, the removal order and the final frontier are those of the source's run (Tracked), as for Search. |
| QSearch.QueueSearch.Loop | aima-core/src/main/java/aima/core/search/framework/qsearch/QueueSearch.java:69-91 | Ends with a goal found, an empty frontier, or a canceled poll. Every poll before the last expansion answered "not canceled", and with the early check off so did the poll before a goal was removed. Keeps the arena well formed, every node created by an expansion, and the frontier account. Early check off: every expanded node is a non-goal. Early check on: every node that entered the frontier is a non-goal. Early check off and goal root, when the first poll answers "not canceled": the root is returned without any expansion. Its invariant and ensures carry the arena Arena(p, expanded), the removal order and the frontier FrontierAfter(expanded) (Tracked), so no successor is dropped, reordered or duplicated. |
| QSearch.QueueSearch.Step | aima-core/src/main/java/aima/core/search/framework/qsearch/QueueSearch.java:71-88 | Removes the next frontier node. Early check off: the node is returned unexpanded exactly when it is a goal. Otherwise it is expanded once and its successors are appended to the arena. The new frontier is exactly the rest left by the removal followed by the successors in order, or, with an early goal, by the successors before it. The account, arena and goal invariants are kept, and so are Arena, RemovalOrder and FrontierAfter (Tracked) with the node appended to the expansions. |
| QSearch.QueueSearch.ExpandAndInsert | aima-core/src/main/java/aima/core/search/framework/qsearch/QueueSearch.java:80-88 | The arena grows by exactly the node's successors, and the expander counter by one. Without an early goal, the new frontier is exactly the old one followed by all successors in order. With one, it is the old one followed by the successors before the goal, and the goal's parent is the expanded node. |
| QSearch.QueueSearch.InsertSuccessors | aima-core/src/main/java/aima/core/search/framework/qsearch/QueueSearch.java:82-88 | Without an early goal, the successors join the frontier's tail in order. With the early check on, it stops at the first goal successor, and only the successors before it join. Early check off: never stops early. |
| QSearch.QueueSearch.constructor | aima-core/src/main/java/aima/core/search/framework/qsearch/QueueSearch.java:29-36 | Stores the expander. The early goal check starts off. |
| QSearch.QueueSearch.SetEarlyGoalCheck | aima-core/src/main/java/aima/core/search/framework/qsearch/QueueSearch.java:119-121 | The flag becomes the given state. |
| QSearch.QueueSearch.GetMetrics | aima-core/src/main/java/aima/core/search/framework/qsearch/QueueSearch.java:127-130 | nodesExpanded becomes the expander's call count. The other metrics are unchanged, and the record is returned. |
| QSearch.QueueSearch.ClearInstrumentation | aima-core/src/main/java/aima/core/search/framework/qsearch/QueueSearch.java:135-141 | The expander counter and all four metrics become 0. |
| QSearch.QueueSearch.UpdateMetrics | aima-core/src/main/java/aima/core/search/framework/qsearch/QueueSearch.java:143-149 | The new metrics are Updated(old, queueSize): the queue size is set, the maximum is raised if exceeded, and nothing else changes. |
| QSearch.QueueSearch.GetSolution | aima-core/src/main/java/aima/core/search/framework/qsearch/QueueSearch.java:151-154 | pathCost becomes the node's path cost, and the result is the node's action sequence. |
| QSearch.QueueSearch.AddToFrontier | aima-core/src/main/java/aima/core/search/framework/qsearch/QueueSearch.java:94-97 | The node joins the frontier's tail. |
| QSearch.QueueSearch.RemoveFromFrontier | aima-core/src/main/java/aima/core/search/framework/qsearch/QueueSearch.java:99-105 | The next node by the discipline is removed and returned. |
| QSearch.QueueSearch.IsFrontierEmpty | aima-core/src/main/java/aima/core/search/framework/qsearch/QueueSearch.java:107-111 | True exactly when the frontier is empty. |
| QSearch.AccountStep | aima-core/src/main/java/aima/core/search/framework/qsearch/QueueSearch.java:71-88 | Removing the next node and inserting the new nodes base..top keeps every node that entered the frontier counted exactly once (waiting or dequeued) and no other index present, and (FIFO) in creation order. |
| QSearch.Accounted | aima-core/src/main/java/aima/core/search/framework/qsearch/QueueSearch.java:71 | Every node waiting in the frontier lies inside the arena. |
| QSearch.FifoDequeuesInCreationOrder | aima-core/src/main/java/aima/core/search/framework/qsearch/QueueSearch.java:94-105 | With a FIFO frontier, nodes are dequeued in creation order, and the waiting nodes are the next ones in that order. |
| QSearch.ExpansionCreates | aima-core/src/main/java/aima/core/search/framework/qsearch/QueueSearch.java:82 | After an expansion, every non-root node still has an expanded parent. |
| QSearch.NoGoalGrows | aima-core/src/main/java/aima/core/search/framework/qsearch/QueueSearch.java:83-87 | A goal-free prefix of the arena stays goal-free when goal-free successors are inserted. |
| QSearch.ExpandedNonGoalsGrow | aima-core/src/main/java/aima/core/search/framework/qsearch/QueueSearch.java:74-79 | Expanding a node that passed the removal-time goal test keeps every expanded node a non-goal. |
| Nodes.NodeExpander.Expand | aima-core/src/main/java/aima/core/search/framework/qsearch/QueueSearch.java:82 | Returns the node's successors. The call counter goes up by one per call, not per child. |
| Nodes.NodeExpander.CreateRootNode | aima-core/src/main/java/aima/core/search/framework/qsearch/QueueSearch.java:63 | The root has the given state, no parent, cost 0 and depth 0. |
| Nodes.NodeExpander.ResetCounter | aima-core/src/main/java/aima/core/search/framework/qsearch/QueueSearch.java:136 | The call counter becomes 0. |
| Nodes.Successors | aima-core/src/main/java/aima/core/search/framework/qsearch/QueueSearch.java:82 | There is one child per applicable action, in the problem's order. Each child points back to its parent and carries the action's result state, the parent's path cost plus the step cost of that action, and depth + 1. |
| Nodes.ExpandKeepsWellFormed | aima-core/src/main/java/aima/core/search/framework/qsearch/QueueSearch.java:82 | Appending a node's successors keeps the arena well formed. |
| Nodes.PathActions | aima-core/src/main/java/aima/core/search/framework/qsearch/QueueSearch.java:153 | The path's actions are empty exactly for the root, and end with the node's own action. |
| Nodes.SequenceOfActions | aima-core/src/main/java/aima/core/search/framework/qsearch/QueueSearch.java:153 | Never empty. It is [NoOp] exactly for the root. |
| Nodes.PathFacts | aima-core/src/main/java/aima/core/search/framework/qsearch/QueueSearch.java:151-153 | The path to a node uses applicable actions and leads from the initial state to the node's state. Its cost is the node's path cost, and its length is the node's depth. |
| Nodes.GoalNodeSolution | aima-core/src/main/java/aima/core/search/framework/qsearch/QueueSearch.java:77-78 | The action sequence of a goal node solves the problem. |
| Problems.MovesSolve | aima-core/src/main/java/aima/core/search/framework/qsearch/QueueSearch.java:84-85 | A list of moves solves the problem exactly when its actions apply in turn from the initial state and end in a goal. The failure value (the empty list) never solves it. |
| Problems.WalkSnoc | aima-core/src/main/java/aima/core/search/framework/qsearch/QueueSearch.java:153 | Adding one action to a walk moves it one transition further. The action must be applicable there, and its step cost is added. |
| QSearch.CountStep | aima-core/src/main/java/aima/core/search/framework/qsearch/QueueSearch.java:71-88 | Moving the removed node from the frontier to the dequeued list and appending the new nodes base..top keeps each index below top counted exactly once and every other index absent. |
| QSearch.OccurrencesRange | aima-core/src/main/java/aima/core/search/framework/qsearch/QueueSearch.java:82-87 | The nodes inserted by one expansion, base..top, each appear exactly once, and nothing else appears. |
| QSearch.InitiallyTracked | aima-core/src/main/java/aima/core/search/framework/qsearch/QueueSearch.java:63-68 | Before the loop, with the root alone in the arena and in the frontier, Searching and Tracked hold: the arena is well formed, the frontier account balances, the goal-test invariants hold (with the early check on, the root is not a goal), and the arena and frontier are those of zero expansions. |
| QSearch.FrontierSnoc | aima-core/src/main/java/aima/core/search/framework/qsearch/QueueSearch.java:71-88 | One more expansion of an arena node appends exactly its successors to the arena and their indices to the frontier after the removal. |
| QSearch.TrackedStep | aima-core/src/main/java/aima/core/search/framework/qsearch/QueueSearch.java:71-88 | Expanding the node the frontier gives back keeps the arena, frontier and removal order those of the source's run. |
| QSearch.RemovalOrderLast | aima-core/src/main/java/aima/core/search/framework/qsearch/QueueSearch.java:71 | In a run in removal order, the earlier expansions are in removal order too, and the last expanded node is the one the frontier gave back. |
| QSearch.LifoExpandsNewestChild | aima-core/src/main/java/aima/core/search/framework/qsearch/QueueSearch.java:71-88 | Depth first: after a LIFO frontier gives back a node with successors and it is expanded, the next node given back is its newest successor. |
| QSearch.FifoNext | aima-core/src/main/java/aima/core/search/framework/qsearch/QueueSearch.java:71-88 | On a FIFO frontier holding the unexpanded rest of the arena in order, the next expansion is of the next node in creation order, and that stays true. |
| QSearch.FifoExpandsInCreationOrder | aima-core/src/main/java/aima/core/search/framework/qsearch/QueueSearch.java:69-91 | Breadth first: in a FIFO run the k-th expansion is of node k, and the frontier holds exactly the created but unexpanded nodes in order. |
| QSearch.Polled | aima-core/src/main/java/aima/core/search/framework/qsearch/QueueSearch.java:69 | A cancellation poll answers as listed; once the listed answers are used up, the thread counts as canceled. |
| Nodes.Failure | aima-core/src/main/java/aima/core/search/framework/qsearch/QueueSearch.java:91 | The failure value is the empty action list, and it solves no problem. |
| Nodes.NodeExpander.NumOfExpandCalls | aima-core/src/main/java/aima/core/search/framework/qsearch/QueueSearch.java:128 | Returns the expander's call counter, which Expand raises by one per call and ResetCounter clears. |
| Frontiers.Occurrences | aima-core/src/main/java/aima/core/search/framework/qsearch/QueueSearch.java:94-105 | Counts how often a node waits in the frontier: positive exactly when it is there, and at most the frontier's length. |
| Frontiers.OccurrencesAppend | aima-core/src/main/java/aima/core/search/framework/qsearch/QueueSearch.java:94-97 | Counting occurrences distributes over appending nodes at the tail. |
| Frontiers.Add | aima-core/src/main/java/aima/core/search/framework/qsearch/QueueSearch.java:94-97 | The frontier gains exactly the node, at the tail, and the waiting nodes keep their order. |
| Frontiers.Remove | aima-core/src/main/java/aima/core/search/framework/qsearch/QueueSearch.java:99-105 | One waiting node leaves, exactly once: FIFO takes the head, LIFO the tail. |
| Frontiers.FifoDrainsInOrder | aima-core/src/main/java/aima/core/search/framework/qsearch/QueueSearch.java:99-105 | A FIFO frontier gives nodes back in insertion order. |
| Frontiers.LifoDrainsReversed | aima-core/src/main/java/aima/core/search/framework/qsearch/QueueSearch.java:99-105 | A LIFO frontier gives nodes back in reverse insertion order: the k-th node out is the k-th from the end, where Reverse is defined element by element. |
| Frontiers.FifoAddRemove | aima-core/src/main/java/aima/core/search/framework/qsearch/QueueSearch.java:94-105 | Queue law: on a non-empty FIFO frontier, adding then removing equals removing then adding. |
| Frontiers.LifoAddRemove | aima-core/src/main/java/aima/core/search/framework/qsearch/QueueSearch.java:94-105 | Stack law: on a LIFO frontier, the node just added is removed next, and the rest is unchanged. |
| SearchMetrics.Updated | aima-core/src/main/java/aima/core/search/framework/qsearch/QueueSearch.java:143-149 | The queue size is set. The maximum is at least both the old maximum and the new size, and equals one of them. The other metrics are unchanged. |
| SearchMetrics.MaxQueueSizeIsRunningMax | aima-core/src/main/java/aima/core/search/framework/qsearch/QueueSearch.java:143-149 | After a run of updates, the maximum bounds every reported size and is one of them (or the starting maximum). The queue size is the last reported size. |
| SearchMetrics.MaxQueueSizeNeverDecreases | aima-core/src/main/java/aima/core/search/framework/qsearch/QueueSearch.java:143-149 | The maximum queue size never decreases along a run of updates. |
| SearchMetrics.UpdatedAllAppend | aima-core/src/main/java/aima/core/search/framework/qsearch/QueueSearch.java:143-149 | A run of updates split in two is the second part applied after the first. |

## Left out

- Node, NodeExpander, SearchUtils, Problem, Metrics and CancelableThread are not modelled in full; each is modelled from how this class uses it:
  - the expander builds one child per applicable action and counts calls;
  - a solution walks the parents and is `[NoOp]` for the root;
  - failure is the empty list;
  - the problem's collaborators are total functions over `int` states and `int` action labels.
- Subclasses are not modelled: TreeSearch, GraphSearch (explored sets), BidirectionalSearch, and the priority-queue frontiers of uniform-cost and A* search. Only FIFO and LIFO frontiers are modelled.
- QSearch.QueueSearch.AddToFrontier: does not call updateMetrics, which the source leaves to subclasses. So Search leaves queueSize and maxQueueSize at 0.
- QSearch.QueueSearch.Search: the source stores whatever frontier the caller passes in, even a non-empty one. The model starts from an empty frontier of the chosen discipline.
- QSearch.QueueSearch.Search: cancellation by another thread is an argument. `polls` lists the answers of the cancellation test at each guard check that reaches it, and a run that has used up its answers counts as canceled. A search that never ends is therefore not modelled. Without cancellation that happens on an infinite state space, and also on a finite graph with a cycle (for example state 0 with an action leading back to 0 and no goal), because this class keeps no explored set.
- QSearch.QueueSearch.constructor: the source creates an empty metrics map and leaves the frontier null. The model starts with all four metrics at 0 and an empty FIFO frontier.
- Path costs are `double` in the source. Here they are `nat` (step costs are non-negative), so rounding is not modelled.
- Metrics are a name-to-value map with `set` and `getInt` in the source. Here they are a record with one field per metric name.
- `getNodeExpander` is the constant field `nodeExpander`.
- QSearch.QueueSearch.GetMetrics: returns a copy of the metrics value. The source returns its live Metrics object, which the next search or clearInstrumentation then changes under the caller.
