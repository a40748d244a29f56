/** Kahn's algorithm as `_build_field_dag` runs it (FakeSchemaGenerator.py:76-103):
    in-degrees, an adjacency list in key order, a FIFO queue seeded with the
    zero-in-degree nodes in key order, and a final count check for cycles. */
module Kahn {
  import opened Wrappers
  import opened Seqs
  import opened Schema
  import opened FieldGraphs

  /** Membership test of `adjacency_list[x]`: `n` lists `x` among its dependencies. */
  function DependsOn(g: FieldGraph, x: Node): Node -> bool {
    (n: Node) => n in g.deps && x in g.deps[n]
  }

  /** `adjacency_list[x]`: the nodes that depend on `x`, in key order (lines 81-83). */
  function Dependents(g: FieldGraph, x: Node): seq<Node> {
    Filter(g.keys, DependsOn(g, x))
  }

  /** The test applied after a decrement: the in-degree was 1 and becomes 0. */
  function ReadyIn(indeg: map<Node, int>): Node -> bool {
    (n: Node) => n in indeg && indeg[n] == 1
  }

  /** Lines 95-99: decrement the in-degree of each dependent of the popped node;
      those that reach zero join the back of the queue, in adjacency order. */
  function Relax(adj: seq<Node>, indeg: map<Node, int>, queue: seq<Node>): (r: (map<Node, int>, seq<Node>))
    requires Distinct(adj)
    requires forall n :: n in adj ==> n in indeg
    ensures r.0.Keys == indeg.Keys
    ensures forall n :: n in indeg ==> r.0[n] == if n in adj then indeg[n] - 1 else indeg[n]
    ensures r.1 == queue + Filter(adj, ReadyIn(indeg))
    decreases |adj|
  {
    if |adj| == 0 then (indeg, queue)
    else
      var n := adj[0];
      var d := indeg[n] - 1;
      DistinctTail(adj);
      RelaxHead(adj, indeg, queue);
      Relax(adj[1..], indeg[n := d], if d == 0 then queue + [n] else queue)
  }

  /** Decrementing the head of `adj` queues it when it reaches zero, ahead of
      whatever the rest of `adj` queues; the rest is unaffected by the head's
      decrement. */
  lemma RelaxHead(adj: seq<Node>, indeg: map<Node, int>, queue: seq<Node>)
    requires Distinct(adj) && |adj| > 0 && adj[0] in indeg
    ensures var n := adj[0];
      var d := indeg[n] - 1;
      (if d == 0 then queue + [n] else queue) + Filter(adj[1..], ReadyIn(indeg[n := d]))
      == queue + Filter(adj, ReadyIn(indeg))
  {
    ReadyTail(adj, indeg);
    ReadyCons(adj, indeg);
    var head := if indeg[adj[0]] == 1 then [adj[0]] else [];
    ConcatAssoc(queue, head, Filter(adj[1..], ReadyIn(indeg)));
  }

  /** The head's decrement leaves the readiness of the rest of `adj` unchanged. */
  lemma ReadyTail(adj: seq<Node>, indeg: map<Node, int>)
    requires Distinct(adj) && |adj| > 0 && adj[0] in indeg
    ensures Filter(adj[1..], ReadyIn(indeg[adj[0] := indeg[adj[0]] - 1])) == Filter(adj[1..], ReadyIn(indeg))
  {
    DistinctTail(adj);
    ReadyUnaffected(adj[1..], indeg, adj[0], indeg[adj[0]] - 1);
  }

  /** The ready nodes of `adj`: its head when its in-degree is 1, then those of
      the rest. */
  lemma ReadyCons(adj: seq<Node>, indeg: map<Node, int>)
    requires |adj| > 0
    ensures Filter(adj, ReadyIn(indeg))
         == (if adj[0] in indeg && indeg[adj[0]] == 1 then [adj[0]] else []) + Filter(adj[1..], ReadyIn(indeg))
  {
  }

  /** Decrementing a node outside `adj` changes none of the readiness tests on
      `adj`. */
  lemma ReadyUnaffected(adj: seq<Node>, indeg: map<Node, int>, n: Node, d: int)
    requires n !in adj
    ensures Filter(adj, ReadyIn(indeg[n := d])) == Filter(adj, ReadyIn(indeg))
  {
    forall x | x in adj
      ensures ReadyIn(indeg[n := d])(x) == ReadyIn(indeg)(x)
    {
      assert x != n;
    }
    FilterCongruent(adj, ReadyIn(indeg[n := d]), ReadyIn(indeg));
  }

  /** The loop invariant of lines 91-99. `out` is `ordered_fields` so far. */
  ghost predicate Inv(g: FieldGraph, indeg: map<Node, int>, queue: seq<Node>, out: seq<Node>) {
    && WellFormed(g)
    && Closed(g)
    && indeg.Keys == g.deps.Keys
    && Distinct(out)
    && Distinct(queue)
    && (forall n :: n in queue ==> n in g.deps && n !in out && g.deps[n] <= ToSet(out))
    && Respects(g, out)
    && (forall n :: n in g.deps && n !in out ==> indeg[n] == |g.deps[n] - ToSet(out)|)
    && (forall n :: n in g.deps && n !in out && n !in queue ==> indeg[n] != 0)
  }

  lemma RemoveOne(a: set<Node>, x: Node)
    requires x in a
    ensures |a - {x}| == |a| - 1
  {
  }

  lemma RespectsSnoc(g: FieldGraph, out: seq<Node>, x: Node)
    requires Respects(g, out)
    requires x in g.deps && g.deps[x] <= ToSet(out)
    ensures Respects(g, out + [x])
  {
    var o := out + [x];
    forall i | 0 <= i < |o|
      ensures o[i] in g.deps && g.deps[o[i]] <= ToSet(o[..i])
    {
      if i < |out| {
        assert o[..i] == out[..i];
      } else {
        assert o[..i] == out;
      }
    }
  }

  /** The nodes released by popping `queue[0]`: each depended on it, was neither
      ordered nor queued, and now has all its dependencies ordered. */
  lemma ReadyNode(g: FieldGraph, indeg: map<Node, int>, queue: seq<Node>, out: seq<Node>, n: Node)
    requires Inv(g, indeg, queue, out) && |queue| > 0
    requires n in Filter(Dependents(g, queue[0]), ReadyIn(indeg))
    ensures n in g.deps && queue[0] in g.deps[n]
    ensures n !in out && n !in queue
    ensures g.deps[n] <= ToSet(out) + {queue[0]}
  {
    var x := queue[0];
    var S := ToSet(out);
    assert x in queue;
    assert x !in S;
    var a := g.deps[n] - S;
    assert x in a;
    SingletonCard(a, x);
  }

  lemma DistinctSnoc(s: seq<Node>, x: Node)
    requires Distinct(s) && x !in s
    ensures Distinct(s + [x])
  {
    DistinctConcat(s, [x]);
  }

  /** After a pop, the ordered prefix and the new queue are still duplicate-free and
      disjoint. */
  lemma StepDistinct(g: FieldGraph, indeg: map<Node, int>, queue: seq<Node>, out: seq<Node>)
    requires Inv(g, indeg, queue, out) && |queue| > 0
    ensures Distinct(Dependents(g, queue[0]))
    ensures Distinct(out + [queue[0]])
    ensures Distinct(queue[1..] + Filter(Dependents(g, queue[0]), ReadyIn(indeg)))
    ensures forall n :: n in queue[1..] + Filter(Dependents(g, queue[0]), ReadyIn(indeg)) ==>
      n !in out + [queue[0]]
  {
    var x := queue[0];
    FilterDistinct(g.keys, DependsOn(g, x));
    var ready := Filter(Dependents(g, x), ReadyIn(indeg));
    FilterDistinct(Dependents(g, x), ReadyIn(indeg));
    assert x in queue;
    DistinctSnoc(out, x);
    forall n | n in ready
      ensures n !in queue && n !in out
    {
      ReadyNode(g, indeg, queue, out, n);
    }
    DistinctConcat(queue[1..], ready);
    forall n | n in queue[1..] + ready
      ensures n !in out + [x]
    {
      if n in queue[1..] {
        var k :| 0 <= k < |queue[1..]| && queue[1..][k] == n;
        assert queue[k + 1] == n;
        assert n in queue;
      }
    }
  }

  lemma StepIndegree(g: FieldGraph, indeg: map<Node, int>, queue: seq<Node>, out: seq<Node>, n: Node)
    requires Inv(g, indeg, queue, out) && |queue| > 0
    requires n in g.deps && n !in out + [queue[0]]
    ensures (if n in Dependents(g, queue[0]) then indeg[n] - 1 else indeg[n])
            == |g.deps[n] - ToSet(out + [queue[0]])|
  {
    var x := queue[0];
    assert x in queue;
    assert ToSet(out + [x]) == ToSet(out) + {x};
    assert n in Dependents(g, x) <==> x in g.deps[n] by {
      assert n in g.keys;
    }
    assert n !in out;
    DegreeAfterPop(g.deps[n], ToSet(out), x, indeg[n]);
  }

  /** Ordering one more node lowers the count of unordered dependencies by one
      exactly when it is one of them. */
  lemma DegreeAfterPop(deps: set<Node>, done: set<Node>, x: Node, k: int)
    requires k == |deps - done| && x !in done
    ensures (if x in deps then k - 1 else k) == |deps - (done + {x})|
  {
    if x in deps {
      assert deps - (done + {x}) == (deps - done) - {x};
      RemoveOne(deps - done, x);
    } else {
      assert deps - (done + {x}) == deps - done;
    }
  }

  /** After a pop every queued node is unordered and has all its dependencies
      ordered. */
  lemma StepQueue(g: FieldGraph, indeg: map<Node, int>, queue: seq<Node>, out: seq<Node>,
      indeg': map<Node, int>, queue': seq<Node>)
    requires Inv(g, indeg, queue, out) && |queue| > 0
    requires indeg'.Keys == indeg.Keys
    requires forall n :: n in indeg ==>
      indeg'[n] == if n in Dependents(g, queue[0]) then indeg[n] - 1 else indeg[n]
    requires queue' == queue[1..] + Filter(Dependents(g, queue[0]), ReadyIn(indeg))
    ensures forall n :: n in queue' ==>
      n in g.deps && n !in out + [queue[0]] && g.deps[n] <= ToSet(out + [queue[0]])
  {
    var x := queue[0];
    StepDistinct(g, indeg, queue, out);
    assert ToSet(out + [x]) == ToSet(out) + {x};
    forall n | n in queue'
      ensures n in g.deps && g.deps[n] <= ToSet(out + [x])
    {
      if n in queue[1..] {
        assert n in queue;
      } else {
        ReadyNode(g, indeg, queue, out, n);
      }
    }
  }

  /** After a pop the in-degree of every unordered node counts its unordered
      dependencies, and only queued nodes have reached zero. */
  lemma StepCounts(g: FieldGraph, indeg: map<Node, int>, queue: seq<Node>, out: seq<Node>,
      indeg': map<Node, int>, queue': seq<Node>)
    requires Inv(g, indeg, queue, out) && |queue| > 0
    requires indeg'.Keys == indeg.Keys
    requires forall n :: n in indeg ==>
      indeg'[n] == if n in Dependents(g, queue[0]) then indeg[n] - 1 else indeg[n]
    requires queue' == queue[1..] + Filter(Dependents(g, queue[0]), ReadyIn(indeg))
    ensures forall n :: n in g.deps && n !in out + [queue[0]] ==>
      indeg'[n] == |g.deps[n] - ToSet(out + [queue[0]])|
    ensures forall n :: n in g.deps && n !in out + [queue[0]] && n !in queue' ==> indeg'[n] != 0
  {
    var x := queue[0];
    forall n | n in g.deps && n !in out + [x]
      ensures indeg'[n] == |g.deps[n] - ToSet(out + [x])|
    {
      StepIndegree(g, indeg, queue, out, n);
    }
    assert queue == [x] + queue[1..];
    forall n | n in g.deps && n !in out + [x] && n !in queue'
      ensures indeg'[n] != 0
    {
      assert n !in queue;
    }
  }

  /** The state after one pop, given the in-degrees and queue `Relax` produces,
      satisfies the invariant again. */
  lemma StepInv(g: FieldGraph, indeg: map<Node, int>, queue: seq<Node>, out: seq<Node>,
      indeg': map<Node, int>, queue': seq<Node>)
    requires Inv(g, indeg, queue, out) && |queue| > 0
    requires indeg'.Keys == indeg.Keys
    requires forall n :: n in indeg ==>
      indeg'[n] == if n in Dependents(g, queue[0]) then indeg[n] - 1 else indeg[n]
    requires queue' == queue[1..] + Filter(Dependents(g, queue[0]), ReadyIn(indeg))
    ensures Inv(g, indeg', queue', out + [queue[0]])
  {
    StepDistinct(g, indeg, queue, out);
    assert queue[0] in queue;
    RespectsSnoc(g, out, queue[0]);
    StepQueue(g, indeg, queue, out, indeg', queue');
    StepCounts(g, indeg, queue, out, indeg', queue');
  }

  /** One iteration of the `while queue` loop preserves the invariant and removes
      the popped node from the unprocessed set. */
  lemma KahnStep(g: FieldGraph, indeg: map<Node, int>, queue: seq<Node>, out: seq<Node>)
    requires Inv(g, indeg, queue, out) && |queue| > 0
    ensures Distinct(Dependents(g, queue[0]))
    ensures forall n :: n in Dependents(g, queue[0]) ==> n in indeg
    ensures var r := Relax(Dependents(g, queue[0]), indeg, queue[1..]);
            Inv(g, r.0, r.1, out + [queue[0]])
  {
    var x := queue[0];
    StepDistinct(g, indeg, queue, out);
    var r := Relax(Dependents(g, x), indeg, queue[1..]);
    StepInv(g, indeg, queue, out, r.0, r.1);
  }

  /** Popping a queued node shrinks the set of unordered nodes. */
  lemma StepShrinks(g: FieldGraph, out: seq<Node>, x: Node)
    requires x in g.deps && x !in out
    ensures g.deps.Keys - ToSet(out + [x]) < g.deps.Keys - ToSet(out)
  {
    assert ToSet(out + [x]) == ToSet(out) + {x};
    assert g.deps.Keys - ToSet(out + [x]) == (g.deps.Keys - ToSet(out)) - {x};
  }

  /** The `while queue` loop (lines 91-99); the result is `ordered_fields`. When the
      queue runs dry, every node left out still waits on a node left out. */
  function KahnLoop(g: FieldGraph, indeg: map<Node, int>, queue: seq<Node>, out: seq<Node>): (r: seq<Node>)
    requires Inv(g, indeg, queue, out)
    ensures Distinct(r) && Respects(g, r)
    ensures forall n :: n in r ==> n in g.deps
    ensures forall n :: n in g.deps && n !in r ==> !(g.deps[n] <= ToSet(r))
    decreases g.deps.Keys - ToSet(out)
  {
    if |queue| == 0 then
      out
    else
      KahnStep(g, indeg, queue, out);
      StepShrinks(g, out, queue[0]);
      var (indeg', queue') := Relax(Dependents(g, queue[0]), indeg, queue[1..]);
      KahnLoop(g, indeg', queue', out + [queue[0]])
  }
}

module TopologicalSort {
  import opened Wrappers
  import opened Seqs
  import opened Schema
  import opened FieldGraphs
  import opened Kahn

  /** `in_degree` after lines 77-84: each node counts its dependencies. */
  function InitialDegrees(g: FieldGraph): map<Node, int> {
    map n | n in g.deps :: |g.deps[n]|
  }

  function NoDependencies(g: FieldGraph): Node -> bool {
    (n: Node) => n in g.deps && |g.deps[n]| == 0
  }

  /** Line 88: the zero-in-degree nodes in key order. */
  function InitialQueue(g: FieldGraph): seq<Node> {
    Filter(g.keys, NoDependencies(g))
  }

  /** A node one of whose dependencies is not a node: line 83 raises on it. */
  function DanglingIn(g: FieldGraph): Node -> bool {
    (n: Node) => n in g.deps && !(g.deps[n] <= g.deps.Keys)
  }

  lemma InitInv(g: FieldGraph)
    requires WellFormed(g) && Closed(g)
    ensures Inv(g, InitialDegrees(g), InitialQueue(g), [])
  {
    FilterDistinct(g.keys, NoDependencies(g));
    var empty: seq<Node> := [];
    assert ToSet(empty) == {};
  }

  /** Lines 76-103: the order Kahn's algorithm produces, a `MissingNode` error when
      a dependency is not itself a node (the `KeyError` of line 83), or
      `CyclicDependency` when fewer nodes were ordered than exist. */
  function KahnOrder(g: FieldGraph): (r: Outcome<seq<Node>>)
    requires WellFormed(g)
  {
    if !Closed(g) then
      var dangling := Filter(g.keys, DanglingIn(g));
      if |dangling| == 0 then Err(CyclicDependency) else Err(MissingNode(dangling[0]))
    else
      InitInv(g);
      var ordered := KahnLoop(g, InitialDegrees(g), InitialQueue(g), []);
      if |ordered| != |g.keys| then Err(CyclicDependency) else Ok(ordered)
  }

  /** Every node left out of the order waits on another node left out. */
  ghost predicate Stuck(g: FieldGraph, r: seq<Node>) {
    forall n :: n in g.deps && n !in r ==> !(g.deps[n] <= ToSet(r))
  }

  /** A walk of `k` dependency steps through nodes left out of `r`. */
  ghost function Walk(g: FieldGraph, r: seq<Node>, n: Node, k: nat): (w: seq<Node>)
    requires Closed(g) && Stuck(g, r) && n in g.deps && n !in r
    ensures |w| == k + 1 && w[0] == n
    ensures forall i :: 0 <= i < |w| ==> w[i] in g.deps && w[i] !in r
    ensures forall i :: 0 < i < |w| ==> w[i] in g.deps[w[i - 1]]
    decreases k
  {
    if k == 0 then [n]
    else
      var d :| d in g.deps[n] && d !in ToSet(r);
      [n] + Walk(g, r, d, k - 1)
  }

  /** A stuck node lies on a cycle: walking more steps than there are nodes
      revisits one, and the stretch between the visits is a cycle. */
  lemma StuckHasCycle(g: FieldGraph, r: seq<Node>, n: Node)
    requires Closed(g) && Stuck(g, r) && n in g.deps && n !in r
    ensures HasCycle(g)
  {
    var w := Walk(g, r, n, |g.deps.Keys|);
    Pigeonhole(w, g.deps.Keys);
    var i, j :| 0 <= i < j < |w| && w[i] == w[j];
    RepeatIsCycle(g, w, i, j);
  }

  /** Between two visits of the same node, a walk along dependency edges is a
      cycle. */
  lemma RepeatIsCycle(g: FieldGraph, w: seq<Node>, i: nat, j: nat)
    requires forall k :: 0 <= k < |w| ==> w[k] in g.deps
    requires forall k :: 0 < k < |w| ==> w[k] in g.deps[w[k - 1]]
    requires i < j < |w| && w[i] == w[j]
    ensures IsCycle(g, w[i..j])
  {
    var c := w[i..j];
    forall k | 0 <= k < |c|
      ensures c[k] in g.deps
    {
      assert c[k] == w[i + k];
    }
    forall k | 0 < k < |c|
      ensures c[k] in g.deps[c[k - 1]]
    {
      assert c[k] == w[i + k] && c[k - 1] == w[i + k - 1];
    }
    assert c[0] == w[j] && c[|c| - 1] == w[j - 1];
  }

  /** A duplicate-free order of nodes as long as the key list lists every node. */
  lemma FullOrder(g: FieldGraph, r: seq<Node>)
    requires WellFormed(g) && Distinct(r) && Respects(g, r)
    requires forall n :: n in r ==> n in g.deps
    requires |r| == |g.keys|
    ensures IsPermutation(g, r) && !HasCycle(g)
  {
    DistinctCard(r);
    DistinctCard(g.keys);
    assert ToSet(g.keys) == g.deps.Keys;
    SubsetFullCard(ToSet(r), g.deps.Keys);
    assert forall n :: n in g.deps ==> n in ToSet(r);
    RespectingOrderIsAcyclic(g, r);
  }

  /** A stuck order shorter than the key list leaves a node out, so there is a
      cycle. */
  lemma ShortOrder(g: FieldGraph, r: seq<Node>)
    requires WellFormed(g) && Closed(g) && Distinct(r) && Stuck(g, r)
    requires forall n :: n in r ==> n in g.deps
    requires |r| != |g.keys|
    ensures HasCycle(g)
  {
    DistinctCard(r);
    DistinctCard(g.keys);
    assert ToSet(g.keys) == g.deps.Keys;
    SubsetCard(ToSet(r), g.deps.Keys);
    if forall n :: n in g.deps ==> n in r {
      assert g.deps.Keys <= ToSet(r);
      SubsetCard(g.deps.Keys, ToSet(r));
    }
    var n :| n in g.deps && n !in r;
    StuckHasCycle(g, r, n);
  }

  /** On a closed graph the loop orders every node exactly when there is no cycle. */
  lemma LoopOutcome(g: FieldGraph)
    requires WellFormed(g) && Closed(g)
    ensures Inv(g, InitialDegrees(g), InitialQueue(g), [])
    ensures var r := KahnLoop(g, InitialDegrees(g), InitialQueue(g), []);
      (|r| == |g.keys| ==> IsPermutation(g, r) && !HasCycle(g))
      && (|r| != |g.keys| ==> HasCycle(g))
  {
    InitInv(g);
    var r := KahnLoop(g, InitialDegrees(g), InitialQueue(g), []);
    if |r| == |g.keys| {
      FullOrder(g, r);
    } else {
      ShortOrder(g, r);
    }
  }

  /** `_build_field_dag`'s sort succeeds exactly on closed acyclic graphs, and then
      lists every node once, each after all of its dependencies; on a closed graph
      with a cycle it raises `CyclicDependency`. */
  lemma KahnOrderCorrect(g: FieldGraph)
    requires WellFormed(g)
    ensures KahnOrder(g).Ok? ==> IsPermutation(g, KahnOrder(g).value)
    ensures KahnOrder(g).Ok? ==> Respects(g, KahnOrder(g).value)
    ensures KahnOrder(g).Ok? <==> Closed(g) && !HasCycle(g)
    ensures KahnOrder(g) == Err(CyclicDependency) <==> Closed(g) && HasCycle(g)
    ensures !Closed(g) ==> KahnOrder(g).Err? && KahnOrder(g).error.MissingNode?
  {
    if !Closed(g) {
      var n, d :| n in g.deps && d in g.deps[n] && d !in g.deps;
      assert DanglingIn(g)(n);
      assert n in Filter(g.keys, DanglingIn(g));
    } else {
      LoopOutcome(g);
    }
  }

  /** No field reads another. */
  predicate Edgeless(g: FieldGraph) {
    forall n :: n in g.deps ==> g.deps[n] == {}
  }

  /** A pop that relaxes nothing moves the head of the queue to the output. */
  lemma PopAlone(g: FieldGraph, indeg: map<Node, int>, queue: seq<Node>, out: seq<Node>)
    requires Inv(g, indeg, queue, out) && |queue| > 0 && Dependents(g, queue[0]) == []
    ensures Inv(g, indeg, queue[1..], out + [queue[0]])
    ensures KahnLoop(g, indeg, queue, out) == KahnLoop(g, indeg, queue[1..], out + [queue[0]])
  {
    KahnStep(g, indeg, queue, out);
  }

  /** Without edges no pop queues anything, so the loop emits the queue as it
      stands. */
  lemma {:induction false} EdgelessLoop(g: FieldGraph, indeg: map<Node, int>, queue: seq<Node>, out: seq<Node>)
    requires Inv(g, indeg, queue, out) && Edgeless(g)
    ensures KahnLoop(g, indeg, queue, out) == out + queue
    decreases |queue|
  {
    if |queue| > 0 {
      var x, rest := queue[0], queue[1..];
      FilterNone(g.keys, DependsOn(g, x));
      PopAlone(g, indeg, queue, out);
      EdgelessLoop(g, indeg, rest, out + [x]);
      assert queue == [x] + rest;
      ConcatAssoc(out, [x], rest);
    }
  }

  /** A graph without edges is sorted in key order: every node starts in the
      queue, and the queue is emitted as it stands. */
  lemma EdgelessOrder(g: FieldGraph)
    requires WellFormed(g) && Edgeless(g)
    ensures KahnOrder(g) == Ok(g.keys)
  {
    assert Closed(g);
    FilterAll(g.keys, NoDependencies(g));
    InitInv(g);
    var ordered := KahnLoop(g, InitialDegrees(g), InitialQueue(g), []);
    assert KahnOrder(g) == if |ordered| != |g.keys| then Err(CyclicDependency) else Ok(ordered);
    EdgelessLoop(g, InitialDegrees(g), InitialQueue(g), []);
    assert [] + g.keys == g.keys;
  }
}
