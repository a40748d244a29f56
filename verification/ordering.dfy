/** `_build_field_dag` after the sort (FakeSchemaGenerator.py:73-74, 105-112): the
    fields of models that read no other model move to the front, the rest follow,
    each group in Kahn order. */
module Ordering {
  import opened Wrappers
  import opened Seqs
  import opened Schema
  import opened FieldGraphs
  import opened TopologicalSort
  import opened Dependencies

  /** Line 74: the models whose model-dependency set is empty. */
  function Independent(md: map<ModelName, set<ModelName>>): (r: set<ModelName>)
    ensures forall m :: m in r <==> m in md && md[m] == {}
  {
    set m | m in md && md[m] == {}
  }

  function OfModels(s: set<ModelName>): Node -> bool {
    (n: Node) => n.model in s
  }

  function OutsideModels(s: set<ModelName>): Node -> bool {
    (n: Node) => n.model !in s
  }

  /** The test of line 110: neither in an independent model nor already placed. */
  function NotPlaced(s: set<ModelName>, front: seq<Node>): Node -> bool {
    (n: Node) => n.model !in s && n !in front
  }

  /** Line 108 as the source evaluates it: each key `(model, field)` of the field
      graph unpacks into `f, d = model, field`, so the comprehension yields the
      model names of nodes whose field name is empty. */
  function EmptyFieldModels(keys: seq<Node>): (r: seq<ModelName>)
    ensures |r| <= |keys|
    ensures forall m :: m in r ==> exists n :: n in keys && n.model == m && n.field == ""
    decreases |keys|
  {
    if |keys| == 0 then []
    else (if keys[0].field == "" then [keys[0].model] else []) + EmptyFieldModels(keys[1..])
  }

  /** Line 108 adds nothing to the DAG: graph nodes are declared dataclass fields,
      whose names are non-empty. */
  lemma {:induction false} EmptyFieldModelsNone(keys: seq<Node>)
    requires forall n :: n in keys ==> n.field != ""
    ensures EmptyFieldModels(keys) == []
    decreases |keys|
  {
    if |keys| > 0 {
      EmptyFieldModelsNone(keys[1..]);
    }
  }

  /** Lines 106-110 on the Kahn order `ordered`, with line 108 contributing
      nothing. */
  function Reorder(ordered: seq<Node>, independent: set<ModelName>): seq<Node> {
    var front := Filter(ordered, OfModels(independent));
    front + Filter(ordered, NotPlaced(independent, front))
  }

  /** Lines 70-112: sort, then move the independent models' fields forward. */
  function BuildFieldDag(g: FieldGraph, md: map<ModelName, set<ModelName>>): Outcome<seq<Node>>
    requires WellFormed(g)
  {
    var ordered :- KahnOrder(g);
    Ok(Reorder(ordered, Independent(md)))
  }

  /** When every field belongs to an independent model, the reordering keeps
      the order as it is. */
  lemma ReorderAllIndependent(ordered: seq<Node>, independent: set<ModelName>)
    requires forall n :: n in ordered ==> n.model in independent
    ensures Reorder(ordered, independent) == ordered
  {
    var front := Filter(ordered, OfModels(independent));
    FilterAll(ordered, OfModels(independent));
    FilterNone(ordered, NotPlaced(independent, front));
  }

  /** A graph without edges whose models all depend on nothing is ordered as
      its nodes were added. */
  lemma EdgelessDag(g: FieldGraph, md: map<ModelName, set<ModelName>>)
    requires WellFormed(g) && Edgeless(g)
    requires forall n :: n in g.keys ==> n.model in md && md[n.model] == {}
    ensures BuildFieldDag(g, md) == Ok(g.keys)
  {
    EdgelessOrder(g);
    ReorderAllIndependent(g.keys, Independent(md));
  }

  /** The second group is the Kahn order restricted to the other models. */
  lemma RestIsOutside(ordered: seq<Node>, independent: set<ModelName>)
    ensures var front := Filter(ordered, OfModels(independent));
      Filter(ordered, NotPlaced(independent, front)) == Filter(ordered, OutsideModels(independent))
  {
    var front := Filter(ordered, OfModels(independent));
    FilterCongruent(ordered, NotPlaced(independent, front), OutsideModels(independent));
  }

  /** The reordering is a permutation of the order it is given. */
  lemma ReorderPermutation(g: FieldGraph, ordered: seq<Node>, independent: set<ModelName>)
    requires IsPermutation(g, ordered)
    ensures IsPermutation(g, Reorder(ordered, independent))
  {
    var front := Filter(ordered, OfModels(independent));
    var rest := Filter(ordered, OutsideModels(independent));
    RestIsOutside(ordered, independent);
    FilterDistinct(ordered, OfModels(independent));
    FilterDistinct(ordered, OutsideModels(independent));
    DistinctConcat(front, rest);
    FilterSplitLength(ordered, OfModels(independent), OutsideModels(independent));
  }

  /** The fields of independent models come first. */
  lemma ReorderPrefix(ordered: seq<Node>, independent: set<ModelName>)
    ensures var r := Reorder(ordered, independent);
      forall i, j :: 0 <= i < j < |r| && r[j].model in independent ==> r[i].model in independent
  {
    var front := Filter(ordered, OfModels(independent));
    var rest := Filter(ordered, OutsideModels(independent));
    RestIsOutside(ordered, independent);
    var r := front + rest;
    assert forall j :: |front| <= j < |r| ==> r[j] == rest[j - |front|] && r[j] in rest;
    assert forall i :: 0 <= i < |front| ==> r[i] == front[i] && r[i] in front;
  }

  /** Each group keeps the relative order the sort gave it. */
  lemma ReorderGroups(ordered: seq<Node>, independent: set<ModelName>)
    ensures Filter(Reorder(ordered, independent), OfModels(independent)) == Filter(ordered, OfModels(independent))
    ensures Filter(Reorder(ordered, independent), OutsideModels(independent)) == Filter(ordered, OutsideModels(independent))
  {
    var front := Filter(ordered, OfModels(independent));
    var rest := Filter(ordered, OutsideModels(independent));
    RestIsOutside(ordered, independent);
    FilterConcat(front, rest, OfModels(independent));
    FilterConcat(front, rest, OutsideModels(independent));
    FilterAll(front, OfModels(independent));
    FilterNone(rest, OfModels(independent));
    FilterNone(front, OutsideModels(independent));
    FilterAll(rest, OutsideModels(independent));
  }

  /** The reordering still puts every field after the fields it reads, given that
      fields of independent models read nothing. */
  lemma ReorderRespects(g: FieldGraph, ordered: seq<Node>, independent: set<ModelName>)
    requires Distinct(ordered) && Respects(g, ordered)
    requires forall n :: n in g.deps && n.model in independent ==> g.deps[n] == {}
    ensures Respects(g, Reorder(ordered, independent))
  {
    var front := Filter(ordered, OfModels(independent));
    var rest := Filter(ordered, OutsideModels(independent));
    RestIsOutside(ordered, independent);
    var r := front + rest;
    forall k | 0 <= k < |r|
      ensures r[k] in g.deps && g.deps[r[k]] <= ToSet(r[..k])
    {
      if k < |front| {
        assert r[k] in front;
        assert r[k] in ordered;
      } else {
        assert r[..k] == front + rest[..k - |front|];
        RestRespects(g, ordered, independent, k - |front|);
      }
    }
  }

  /** A field of the second group comes after its dependencies: those of
      independent models are all in the first group, the others precede it in the
      second. */
  lemma RestRespects(g: FieldGraph, ordered: seq<Node>, independent: set<ModelName>, j: nat)
    requires Distinct(ordered) && Respects(g, ordered)
    requires j < |Filter(ordered, OutsideModels(independent))|
    ensures var front := Filter(ordered, OfModels(independent));
      var rest := Filter(ordered, OutsideModels(independent));
      rest[j] in g.deps && g.deps[rest[j]] <= ToSet(front + rest[..j])
  {
    var front := Filter(ordered, OfModels(independent));
    var rest := Filter(ordered, OutsideModels(independent));
    var x := rest[j];
    assert x in ordered && x.model !in independent;
    var i := IndexOf(ordered, x);
    assert x in g.deps && g.deps[x] <= ToSet(ordered[..i]);
    FilterPrefix(ordered, OutsideModels(independent), i);
    var before := Filter(ordered[..i], OutsideModels(independent));
    assert |before| == j by {
      FilterDistinct(ordered, OutsideModels(independent));
      assert rest[|before|] == x;
    }
    forall d | d in g.deps[x]
      ensures d in ToSet(front + before)
    {
      assert d in ordered[..i];
      if d.model in independent {
        assert d in front;
      } else {
        assert d in before;
      }
    }
  }

  /** A field of a model whose model-dependency set is empty reads no field. */
  lemma IndependentReadsNothing(g: FieldGraph, auto: seq<ModelName>)
    requires WellFormed(g)
    ensures forall n :: n in g.deps && n.model in Independent(ModelDependencies(g, auto)) ==> g.deps[n] == {}
  {
    ModelDependenciesSpec(g, auto);
    var md := ModelDependencies(g, auto);
    forall n | n in g.deps && n.model in Independent(md)
      ensures g.deps[n] == {}
    {
      var modelDeps := md[n.model];
      assert forall d :: d in g.deps[n] ==> d.model in modelDeps;
    }
  }

  /** `_build_field_dag` on the graph and model dependencies the builders produce:
      it fails exactly when the sort does, and otherwise lists every node once,
      after the nodes it reads, with the independent models' fields first and both
      groups in Kahn order. */
  lemma BuildFieldDagCorrect(g: FieldGraph, auto: seq<ModelName>)
    requires WellFormed(g)
    ensures var r := BuildFieldDag(g, ModelDependencies(g, auto));
      && (r.Ok? <==> Closed(g) && !HasCycle(g))
      && (r == Err(CyclicDependency) <==> Closed(g) && HasCycle(g))
      && (!Closed(g) ==> r.Err? && r.error.MissingNode?)
    ensures var r := BuildFieldDag(g, ModelDependencies(g, auto));
      r.Ok? ==> IsPermutation(g, r.value) && Respects(g, r.value)
    ensures var r := BuildFieldDag(g, ModelDependencies(g, auto));
      var independent := Independent(ModelDependencies(g, auto));
      r.Ok? ==>
        && (forall i, j :: 0 <= i < j < |r.value| && r.value[j].model in independent ==> r.value[i].model in independent)
        && Filter(r.value, OfModels(independent)) == Filter(KahnOrder(g).value, OfModels(independent))
        && Filter(r.value, OutsideModels(independent)) == Filter(KahnOrder(g).value, OutsideModels(independent))
  {
    KahnOrderCorrect(g);
    var independent := Independent(ModelDependencies(g, auto));
    if KahnOrder(g).Ok? {
      var ordered := KahnOrder(g).value;
      ReorderPermutation(g, ordered, independent);
      IndependentReadsNothing(g, auto);
      ReorderRespects(g, ordered, independent);
      ReorderPrefix(ordered, independent);
      ReorderGroups(ordered, independent);
    }
  }
}
