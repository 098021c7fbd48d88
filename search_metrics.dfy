/** The search metrics record: one field per metric name the search
    publishes (nodesExpanded, queueSize, maxQueueSize, pathCost). */
module SearchMetrics {

  datatype Metrics = Metrics(nodesExpanded: nat, queueSize: int, maxQueueSize: int, pathCost: nat)

  /** All four metrics set to 0. */
  const Cleared := Metrics(0, 0, 0, 0)

  /** updateMetrics(q): the queue size becomes `q`, the maximum queue size
      becomes the larger of its old value and `q`, nothing else changes. */
  function Updated(m: Metrics, q: int): (r: Metrics)
    ensures r.queueSize == q
    ensures r.maxQueueSize >= m.maxQueueSize && r.maxQueueSize >= q
    ensures r.maxQueueSize == m.maxQueueSize || r.maxQueueSize == q
    ensures r.nodesExpanded == m.nodesExpanded && r.pathCost == m.pathCost
  {
    if q > m.maxQueueSize then m.(queueSize := q, maxQueueSize := q)
    else m.(queueSize := q)
  }

  /** The metrics after updateMetrics has been called with each of `qs` in
      turn. */
  function UpdatedAll(m: Metrics, qs: seq<int>): (r: Metrics)
    decreases |qs|
  {
    if qs == [] then m else UpdatedAll(Updated(m, qs[0]), qs[1..])
  }

  /** After a run of updates the maximum queue size is the largest of its
      starting value and every reported size, the queue size is the last
      reported one, and the other metrics are untouched. */
  lemma {:induction false} MaxQueueSizeIsRunningMax(m: Metrics, qs: seq<int>)
    ensures var r := UpdatedAll(m, qs);
      r.maxQueueSize >= m.maxQueueSize &&
      (forall k :: 0 <= k < |qs| ==> r.maxQueueSize >= qs[k]) &&
      (r.maxQueueSize == m.maxQueueSize || r.maxQueueSize in qs) &&
      (qs != [] ==> r.queueSize == qs[|qs| - 1]) &&
      r.nodesExpanded == m.nodesExpanded && r.pathCost == m.pathCost
    decreases |qs|
  {
    if qs != [] {
      MaxQueueSizeIsRunningMax(Updated(m, qs[0]), qs[1..]);
      var r := UpdatedAll(m, qs);
      forall k | 0 <= k < |qs|
        ensures r.maxQueueSize >= qs[k]
      {
        if k > 0 {
          assert qs[k] == qs[1..][k - 1];
        }
      }
      if r.maxQueueSize != m.maxQueueSize && r.maxQueueSize != qs[0] {
        assert r.maxQueueSize in qs[1..];
      }
    }
  }

  /** Splitting a run of updates in two. */
  lemma {:induction false} UpdatedAllAppend(m: Metrics, xs: seq<int>, ys: seq<int>)
    ensures UpdatedAll(m, xs + ys) == UpdatedAll(UpdatedAll(m, xs), ys)
    decreases |xs|
  {
    if xs != [] {
      assert (xs + ys)[0] == xs[0];
      assert (xs + ys)[1..] == xs[1..] + ys;
      UpdatedAllAppend(Updated(m, xs[0]), xs[1..], ys);
    } else {
      assert xs + ys == ys;
    }
  }

  /** The maximum queue size never decreases during a run: after any longer
      prefix of the updates it is at least what it was after a shorter one. */
  lemma MaxQueueSizeNeverDecreases(m: Metrics, qs: seq<int>, i: nat, j: nat)
    requires i <= j <= |qs|
    ensures UpdatedAll(m, qs[..i]).maxQueueSize <= UpdatedAll(m, qs[..j]).maxQueueSize
  {
    assert qs[..j] == qs[..i] + qs[i..j];
    UpdatedAllAppend(m, qs[..i], qs[i..j]);
    MaxQueueSizeIsRunningMax(UpdatedAll(m, qs[..i]), qs[i..j]);
  }
}
