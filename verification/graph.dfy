/** The field dependency graph (`_field_dependencies`): its nodes in dictionary
    order, each node's dependency set, and the ordering and cycle notions the sort
    is judged by. */
module FieldGraphs {
  import opened Seqs
  import opened Schema

  /** `keys` is the dictionary's iteration order; `deps[n]` the fields `n` reads. */
  datatype FieldGraph = FieldGraph(keys: seq<Node>, deps: map<Node, set<Node>>)

  /** The keys are listed once each and are exactly the map's domain. */
  predicate WellFormed(g: FieldGraph) {
    && Distinct(g.keys)
    && (forall n :: n in g.keys ==> n in g.deps)
    && (forall n :: n in g.deps ==> n in g.keys)
  }

  /** Every dependency is itself a node; otherwise `adjacency_list[dep]` raises. */
  predicate Closed(g: FieldGraph) {
    forall n, d :: n in g.deps && d in g.deps[n] ==> d in g.deps
  }

  /** Every entry of `order` is a node and comes after all of its dependencies. */
  predicate Respects(g: FieldGraph, order: seq<Node>) {
    forall i :: 0 <= i < |order| ==> order[i] in g.deps && g.deps[order[i]] <= ToSet(order[..i])
  }

  /** `order` lists every node exactly once. */
  predicate IsPermutation(g: FieldGraph, order: seq<Node>) {
    && Distinct(order)
    && |order| == |g.keys|
    && (forall n :: n in order ==> n in g.deps)
    && (forall n :: n in g.deps ==> n in order)
  }

  /** `c` is a closed walk along dependency edges: each entry depends on the next,
      and the last depends on the first. */
  ghost predicate IsCycle(g: FieldGraph, c: seq<Node>) {
    && |c| > 0
    && (forall k :: 0 <= k < |c| ==> c[k] in g.deps)
    && (forall k :: 0 < k < |c| ==> c[k] in g.deps[c[k - 1]])
    && c[0] in g.deps[c[|c| - 1]]
  }

  ghost predicate HasCycle(g: FieldGraph) {
    exists c :: IsCycle(g, c)
  }

  /** In an order that respects the graph, a dependency sits strictly before its
      dependent. */
  lemma RespectsBefore(g: FieldGraph, order: seq<Node>, i: nat, d: Node)
    requires Distinct(order) && Respects(g, order)
    requires i < |order| && d in g.deps[order[i]]
    ensures d in order && IndexOf(order, d) < i
  {
    assert d in order[..i];
    var j :| 0 <= j < i && order[..i][j] == d;
    IndexOfDistinct(order, j);
  }

  /** No order that lists every node and respects the graph can exist when the
      graph has a cycle. */
  lemma {:induction false} RespectingOrderIsAcyclic(g: FieldGraph, order: seq<Node>)
    requires Distinct(order) && Respects(g, order)
    requires forall n :: n in g.deps ==> n in order
    ensures !HasCycle(g)
  {
    if HasCycle(g) {
      var c :| IsCycle(g, c);
      var pos := IndexOf(order, c[0]);
      var k := 1;
      while k < |c|
        invariant 1 <= k <= |c|
        invariant IndexOf(order, c[k - 1]) <= pos
      {
        var p := IndexOf(order, c[k - 1]);
        RespectsBefore(g, order, p, c[k]);
        k := k + 1;
      }
      assert false;
    }
  }
}
