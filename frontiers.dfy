/** The pluggable frontier behind addToFrontier, removeFromFrontier and
    isFrontierEmpty: a sequence of node indices whose removal order is set
    by its discipline. New nodes always join at the tail; a FIFO frontier
    gives back its head (breadth-first search), a LIFO frontier its tail
    (depth-first search). */
module Frontiers {

  datatype Discipline = Fifo | Lifo

  /** Insert `x`: the frontier gains exactly `x`, and the nodes already
      waiting keep their order ahead of it. Both disciplines insert at the
      tail, so `d` is unused; it stands for the frontier object the
      pluggable primitive is called on. */
  function Add(d: Discipline, q: seq<nat>, x: nat): (r: seq<nat>)
    ensures multiset(r) == multiset(q) + multiset{x}
    ensures |r| == |q| + 1 && r[..|q|] == q && r[|q|] == x
  {
    q + [x]
  }

  /** Remove the next node: it is one of the waiting nodes, and exactly that
      one occurrence leaves the frontier. */
  function Remove(d: Discipline, q: seq<nat>): (r: (nat, seq<nat>))
    requires q != []
    ensures r.0 in q
    ensures multiset(r.1) + multiset{r.0} == multiset(q)
    ensures d == Fifo ==> r.0 == q[0] && r.1 == q[1..]
    ensures d == Lifo ==> r.0 == q[|q| - 1] && r.1 == q[..|q| - 1]
  {
    match d
    case Fifo =>
      assert q == [q[0]] + q[1..];
      (q[0], q[1..])
    case Lifo =>
      assert q == q[..|q| - 1] + [q[|q| - 1]];
      (q[|q| - 1], q[..|q| - 1])
  }

  /** The number of times `x` occurs in `s`. */
  function Occurrences(s: seq<nat>, x: nat): (r: nat)
    ensures r > 0 <==> x in s
    ensures r <= |s|
    decreases |s|
  {
    if s == [] then 0
    else
      assert s == s[..|s| - 1] + [s[|s| - 1]];
      (if s[|s| - 1] == x then 1 else 0) + Occurrences(s[..|s| - 1], x)
  }

  /** Counting occurrences distributes over concatenation. */
  lemma {:induction false} OccurrencesAppend(a: seq<nat>, b: seq<nat>, x: nat)
    ensures Occurrences(a + b, x) == Occurrences(a, x) + Occurrences(b, x)
    decreases |b|
  {
    if b == [] {
      assert a + b == a;
    } else {
      assert (a + b)[..|a + b| - 1] == a + b[..|b| - 1];
      OccurrencesAppend(a, b[..|b| - 1], x);
    }
  }

  /** The order in which a frontier gives back all its nodes when nothing
      more is added. */
  function Drain(d: Discipline, q: seq<nat>): (r: seq<nat>)
    ensures multiset(r) == multiset(q) && |r| == |q|
    decreases |q|
  {
    if q == [] then []
    else
      var (x, rest) := Remove(d, q);
      [x] + Drain(d, rest)
  }

  /** The nodes of `s` from last to first. */
  function Reverse(s: seq<nat>): (r: seq<nat>)
  {
    seq(|s|, k requires 0 <= k < |s| => s[|s| - 1 - k])
  }

  /** A FIFO frontier gives nodes back in the order they were added. */
  lemma {:induction false} FifoDrainsInOrder(q: seq<nat>)
    ensures Drain(Fifo, q) == q
    decreases |q|
  {
    if q != [] {
      FifoDrainsInOrder(q[1..]);
    }
  }

  /** A LIFO frontier gives nodes back in the reverse of the order they
      were added. */
  lemma {:induction false} LifoDrainsReversed(q: seq<nat>)
    ensures Drain(Lifo, q) == Reverse(q)
    decreases |q|
  {
    if q != [] {
      var front := q[..|q| - 1];
      LifoDrainsReversed(front);
      var r := Drain(Lifo, q);
      assert r == [q[|q| - 1]] + Reverse(front);
      forall k | 0 <= k < |q|
        ensures r[k] == Reverse(q)[k]
      {
        if k > 0 {
          assert r[k] == Reverse(front)[k - 1];
        }
      }
    }
  }

  /** Queue law: adding then removing from a non-empty FIFO frontier is
      removing first and adding afterwards. */
  lemma FifoAddRemove(q: seq<nat>, x: nat)
    ensures Remove(Fifo, Add(Fifo, q, x)) ==
              if q == [] then (x, []) else (q[0], Add(Fifo, q[1..], x))
  {
    if q != [] {
      assert Add(Fifo, q, x)[1..] == q[1..] + [x];
    }
  }

  /** Stack law: on a LIFO frontier the node just added is the next one
      removed, and the rest is as before. */
  lemma LifoAddRemove(q: seq<nat>, x: nat)
    ensures Remove(Lifo, Add(Lifo, q, x)) == (x, q)
  {
  }
}
