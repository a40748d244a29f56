/** The generation pass `generate_from_dag` (FakeSchemaGenerator.py:245-273) and
    the state it threads: the registry, the field graph, the model dependencies, the
    field order, the scratch records and the sequence counters. */
module Engine {
  import opened Wrappers
  import opened Seqs
  import opened Schema
  import opened Registry
  import opened FieldGraphs
  import opened Dependencies
  import opened TopologicalSort
  import opened Ordering
  import opened SequentialNumbers
  import opened Resolvers

  /** The Faker instance's leaf producers: the directive kinds it has a method for
      besides the ones modelled here, the value a producer returns for a directive
      at a given step, and the pool index `random.choice` picks at a given step. */
  datatype Oracle = Oracle(known: set<string>, draw: (Directive, nat) -> Value, pick: nat -> nat)

  /** The generator's state. `md` is `_model_dependencies`, `dag` is `_field_dag`,
      `instances` is `_instances`, `counters` the sequence provider's numbers and
      `tick` the number of nodes visited so far (the oracle's key). */
  datatype State = State(
    reg: Registry,
    graph: FieldGraph,
    md: map<ModelName, set<ModelName>>,
    dag: seq<Node>,
    instances: Instances,
    counters: Counters,
    tick: nat)

  /** The providers the generator adds itself (lines 33-41). */
  const Providers: set<string> := {"reference", "calculate", "sequential_number", "reset_sequence", "product_name"}

  /** `hasattr(self._fake, kind)`. */
  predicate Known(o: Oracle, kind: string) {
    kind in Providers || kind in o.known
  }

  /** A fresh generator with `reg` registered and nothing built or generated. */
  function Start(reg: Registry): (st: State)
    ensures st.md == map[] && st.instances == map[] && st.reg == reg
  {
    State(reg, FieldGraph([], map[]), map[], [], map[], map[], 0)
  }

  /** What the generator keeps true between calls: a valid registry, a well-formed
      graph whose nodes' models all have a model-dependency entry, and one scratch
      record for each registered model that has one. */
  predicate Consistent(st: State) {
    && Valid(st.reg)
    && WellFormed(st.graph)
    && (forall n :: n in st.graph.deps ==> n.model in st.md)
    && OneScratch(st.reg, st.instances)
  }

  lemma StartConsistent(reg: Registry)
    requires Valid(reg)
    ensures Consistent(Start(reg))
  {
  }

  /** `_build_model_dependencies` (lines 153-166): the field graph with
      auto-registration, the model dependencies, and the sorted field order. */
  function Build(st: State, scope: map<ModelName, ModelDef>): (r: Outcome<State>)
    requires Valid(st.reg) && ValidScope(scope)
  {
    var res :- BuildFieldDependencies(st.reg, scope);
    ClosureRegisters(st.reg, scope);
    FinalGraphNodes(res.0, scope, res.1);
    var md := ModelDependencies(res.1, res.2);
    var dag :- BuildFieldDag(res.1, md);
    Ok(st.(reg := res.0, graph := res.1, md := md, dag := dag))
  }

  /** A successful build registers every model its graph reaches, leaves the
      scratch records and counters alone, and orders every node of the graph after
      its dependencies; it fails exactly when the graph names a missing node or has
      a cycle. Line 108 finds no node with an empty field name in the built graph,
      so it adds nothing to the order. */
  lemma BuildCorrect(st: State, scope: map<ModelName, ModelDef>)
    requires Consistent(st) && ValidScope(scope)
    requires BuildFieldDependencies(st.reg, scope).Ok?
    ensures var res := BuildFieldDependencies(st.reg, scope).value;
      Build(st, scope).Ok? <==> Closed(res.1) && !HasCycle(res.1)
    ensures Build(st, scope).Ok? ==>
      var r := Build(st, scope).value;
      && Consistent(r)
      && r.instances == st.instances && r.counters == st.counters
      && (forall m :: m in st.reg.models ==> m in r.reg.models && r.reg.models[m] == st.reg.models[m])
      && IsPermutation(r.graph, r.dag) && Respects(r.graph, r.dag)
      && EmptyFieldModels(r.graph.keys) == []
  {
    var res := BuildFieldDependencies(st.reg, scope).value;
    ClosureRegisters(st.reg, scope);
    FinalGraphNodes(res.0, scope, res.1);
    FinalGraphNamed(res.0, scope, res.1);
    EmptyFieldModelsNone(res.1.keys);
    BuildFieldDagCorrect(res.1, res.2);
    ModelDependenciesSpec(res.1, res.2);
  }

  /** The declaration of field `f` (the annotation lookup on line 260). */
  function DeclOf(decls: seq<FieldDecl>, f: FieldName): (r: Option<FieldDecl>)
    ensures r.Some? ==> r.value in decls && r.value.name == f
    ensures r.None? ==> forall decl :: decl in decls ==> decl.name != f
  {
    if |decls| == 0 then None
    else if decls[0].name == f then Some(decls[0])
    else DeclOf(decls[1..], f)
  }

  /** The directive of a node's annotation that the pass acts on: the first
      `FakeType`, if its kind has a producer (lines 258-265). */
  function Acting(o: Oracle, decl: FieldDecl): (r: Option<Directive>)
    ensures r.Some? <==> decl.annotation.Metadata? && decl.annotation.directive.Some?
                         && Known(o, decl.annotation.directive.value.kind)
  {
    if decl.annotation.Metadata? && decl.annotation.directive.Some? && Known(o, decl.annotation.directive.value.kind)
    then decl.annotation.directive
    else None
  }

  /** Calls the producer of a known directive (lines 266-270): the graph-closing
      kinds receive the scratch record `current` as `source_model` and return what
      the resolver returns, `calculate` as written (line 230 included); the
      sequence provider reads and updates the counters (the namespace defaults to
      "default"); `reset_sequence` returns `None`; every other kind is a draw. */
  function Produce(st: State, scope: map<ModelName, ModelDef>, o: Oracle, d: Directive, current: Fields): (r: Outcome<(Value, Counters)>)
    requires Valid(st.reg)
    ensures d.kind == "reference" ==>
      var v := Reference(st.reg, scope, st.instances, current, d.args.model, d.args.field, d.args.conditions, o.pick(st.tick));
      r == if v.Ok? then Ok((v.value, st.counters)) else Err(v.error)
    ensures d.kind == "calculate" ==>
      var v := CalculateAsWritten(st.reg, scope, st.instances, current, d.args);
      r == if v.Ok? then Ok((v.value, st.counters)) else Err(v.error)
    ensures d.kind == "sequential_number" ==>
      var ns := d.args.namespace.GetOr(DefaultNamespace);
      r.Ok? && r.value.1 == Next(st.counters, ns).0 && r.value.0 == Int(r.value.1[ns]) && r.value.1[ns] >= 1
    ensures d.kind == "reset_sequence" ==>
      r == Ok((Null, SequentialNumbers.Reset(st.counters, d.args.namespace.GetOr(DefaultNamespace))))
    ensures d.kind !in {"reference", "calculate", "sequential_number", "reset_sequence"} ==>
      r == Ok((o.draw(d, st.tick), st.counters))
  {
    var ns := d.args.namespace.GetOr(DefaultNamespace);
    if d.kind == "reference" then
      var v :- Reference(st.reg, scope, st.instances, current, d.args.model, d.args.field, d.args.conditions, o.pick(st.tick));
      Ok((v, st.counters))
    else if d.kind == "calculate" then
      var v :- CalculateAsWritten(st.reg, scope, st.instances, current, d.args);
      Ok((v, st.counters))
    else if d.kind == "sequential_number" then
      var (c, n) := Next(st.counters, ns);
      Ok((Int(n), c))
    else if d.kind == "reset_sequence" then
      Ok((Null, SequentialNumbers.Reset(st.counters, ns)))
    else
      Ok((o.draw(d, st.tick), st.counters))
  }

  /** The `total_amount` field of order 1, produced during a pass in which one
      order line is still a scratch record (10 x 2) and one was finalized by an
      earlier pass (5 x 1): the engine, running line 230 as written, yields 20,
      while the intended total is 25 (`Resolvers.OrderTotalExample`). */
  lemma OrderTotalInPass(st: State, o: Oracle)
    requires st.reg == OrderRegistry() && st.instances == map["OrderProduct" := [OrderLine(2, 10, 2)]]
    ensures Produce(st, map[], o, Directive("calculate", TotalAmount()), map["id" := Int(1)]) == Ok((Int(20), st.counters))
  {
    OrderTotalAsWritten();
  }

  /** The scratch records with the model's created on its first visit
      (lines 252-255). */
  function WithScratch(st: State, m: ModelName): (r: Instances)
    requires m in st.reg.models
    ensures m in r && r.Keys == st.instances.Keys + {m}
    ensures m in st.instances ==> r == st.instances
    ensures m !in st.instances ==> r[m] == [NewScratch(st.reg.models[m])]
    ensures forall k :: k in st.instances ==> r[k] == st.instances[k]
  {
    if m in st.instances then st.instances else st.instances[m := [NewScratch(st.reg.models[m])]]
  }

  /** `setattr` on the last scratch record of model `m`. */
  function SetLast(instances: Instances, m: ModelName, record: Fields): (r: Instances)
    requires m in instances && |instances[m]| > 0
    ensures r.Keys == instances.Keys
    ensures forall k :: k in instances && k != m ==> r[k] == instances[k]
    ensures |r[m]| == |instances[m]| && r[m][|r[m]| - 1] == record
    ensures r[m][..|r[m]| - 1] == instances[m][..|instances[m]| - 1]
  {
    var rows := instances[m];
    instances[m := rows[..|rows| - 1] + [record]]
  }

  /** The last scratch record of model `m`. */
  function Scratch(st: State, m: ModelName): Fields
    requires m in st.instances && |st.instances[m]| > 0
  {
    st.instances[m][|st.instances[m]| - 1]
  }

  /** Every model with scratch records is registered and has exactly one. */
  predicate OneScratch(reg: Registry, instances: Instances) {
    forall m :: m in instances ==> m in reg.models && |instances[m]| == 1
  }

  /** The scratch record a visit to model `m` works on: the existing one, or a
      fresh one on the model's first visit (lines 252-256). */
  function Current(st: State, m: ModelName): Fields
    requires Consistent(st) && m in st.reg.models
  {
    if m in st.instances then Scratch(st, m) else NewScratch(st.reg.models[m])
  }

  /** The bookkeeping of one visit to node `n` (lines 252-256 and 270): the model's
      scratch record is created if it is missing, and when a producer ran, its value
      is stored in the node's field and its counters replace the old ones. */
  function Visit(st: State, n: Node, produced: Option<(Value, Counters)>): (r: State)
    requires Consistent(st) && n.model in st.reg.models
    ensures Consistent(r)
    ensures r.reg == st.reg && r.graph == st.graph && r.md == st.md && r.dag == st.dag && r.tick == st.tick + 1
    ensures r.instances.Keys == st.instances.Keys + {n.model}
    ensures forall k :: k in st.instances && k != n.model ==> r.instances[k] == st.instances[k]
    ensures n.model in r.instances && |r.instances[n.model]| == 1
    ensures produced.None? ==> Scratch(r, n.model) == Current(st, n.model) && r.counters == st.counters
    ensures produced.Some? ==>
      Scratch(r, n.model) == Current(st, n.model)[n.field := produced.value.0] && r.counters == produced.value.1
  {
    var visited := st.(instances := WithScratch(st, n.model), tick := st.tick + 1);
    ScratchCreated(st, n.model);
    match produced
    case None => visited
    case Some(p) =>
      var record := Current(st, n.model)[n.field := p.0];
      ScratchSet(visited, n.model, record);
      visited.(instances := SetLast(visited.instances, n.model, record), counters := p.1)
  }

  /** Creating the model's scratch record on its first visit keeps the state
      consistent, and the record is the one `Current` names. */
  lemma ScratchCreated(st: State, m: ModelName)
    requires Consistent(st) && m in st.reg.models
    ensures var v := st.(instances := WithScratch(st, m), tick := st.tick + 1);
      Consistent(v) && m in v.instances && Scratch(v, m) == Current(st, m)
  {
  }

  /** Overwriting a model's scratch record keeps the state consistent and changes
      no other model's records. */
  lemma ScratchSet(st: State, m: ModelName, record: Fields)
    requires Consistent(st) && m in st.instances
    ensures var v := st.(instances := SetLast(st.instances, m, record));
      && Consistent(v) && v.instances.Keys == st.instances.Keys
      && (forall k :: k in st.instances && k != m ==> v.instances[k] == st.instances[k])
      && Scratch(v, m) == record
  {
  }

  /** What the producer of a field's directive returns, if one acts (lines
      258-270); the graph-closing kinds see the visited model's scratch record. */
  function Produced(st: State, scope: map<ModelName, ModelDef>, o: Oracle, n: Node, decl: FieldDecl): (r: Outcome<Option<(Value, Counters)>>)
    requires Consistent(st) && n.model in st.reg.models
    ensures Acting(o, decl).None? ==> r == Ok(None)
    ensures r.Ok? && Acting(o, decl).Some? ==>
      r.value.Some? && Ok(r.value.value) == Produce(st.(instances := WithScratch(st, n.model)), scope, o, Acting(o, decl).value, Current(st, n.model))
  {
    match Acting(o, decl)
    case None => Ok(None)
    case Some(d) =>
      var p :- Produce(st.(instances := WithScratch(st, n.model)), scope, o, d, Current(st, n.model));
      Ok(Some(p))
  }

  /** One iteration of the loop on lines 249-270 for node `n`. */
  function Step(st: State, scope: map<ModelName, ModelDef>, o: Oracle, n: Node): (r: Outcome<State>)
    requires Consistent(st)
  {
    if n.model !in st.reg.models then Err(MissingEntry(n.model))
    else match DeclOf(st.reg.models[n.model].decls, n.field)
      case None => Err(UnknownField(n.model, n.field))
      case Some(decl) =>
        var p :- Produced(st, scope, o, n, decl);
        Ok(Visit(st, n, p))
  }

  /** A step keeps the generator consistent and never touches the registry, the
      graph or the order; it visits a declared field of a registered model, gives
      that model a scratch record if it had none, and leaves every other model's
      scratch record alone. */
  lemma StepFrame(st: State, scope: map<ModelName, ModelDef>, o: Oracle, n: Node)
    requires Consistent(st)
    requires Step(st, scope, o, n).Ok?
    ensures var r := Step(st, scope, o, n).value;
      && Consistent(r)
      && r.reg == st.reg && r.graph == st.graph && r.md == st.md && r.dag == st.dag
      && r.tick == st.tick + 1
      && n.model in st.reg.models && HasField(st.reg.models[n.model], n.field)
      && r.instances.Keys == st.instances.Keys + {n.model}
      && (forall k :: k in st.instances && k != n.model ==> r.instances[k] == st.instances[k])
  {
    var decl := DeclOf(st.reg.models[n.model].decls, n.field).value;
    HasFieldDeclared(st.reg.models[n.model], n.field);
    assert Step(st, scope, o, n) == Ok(Visit(st, n, Produced(st, scope, o, n, decl).value));
  }

  /** The visited model's scratch record is created on its first visit only, and
      changes only in the visited field and only when the field's directive has a
      producer; the field then holds what that producer returned for that very
      scratch record. */
  lemma StepEffect(st: State, scope: map<ModelName, ModelDef>, o: Oracle, n: Node)
    requires Consistent(st)
    requires Step(st, scope, o, n).Ok?
    ensures n.model in st.reg.models && DeclOf(st.reg.models[n.model].decls, n.field).Some?
    ensures var r := Step(st, scope, o, n).value;
      var decl := DeclOf(st.reg.models[n.model].decls, n.field).value;
      && n.model in r.instances && |r.instances[n.model]| == 1
      && (Acting(o, decl).None? ==> Scratch(r, n.model) == Current(st, n.model) && r.counters == st.counters)
      && (Acting(o, decl).Some? ==>
            var p := Produce(st.(instances := WithScratch(st, n.model)), scope, o, Acting(o, decl).value, Current(st, n.model));
            p.Ok? && Scratch(r, n.model) == Current(st, n.model)[n.field := p.value.0] && r.counters == p.value.1)
  {
  }

  /** The loop on lines 249-270: every node of the order, in order. */
  function Walk(st: State, scope: map<ModelName, ModelDef>, o: Oracle, nodes: seq<Node>): (r: Outcome<State>)
    requires Consistent(st)
    decreases |nodes|
  {
    if |nodes| == 0 then Ok(st)
    else
      var st1 :- Step(st, scope, o, nodes[0]);
      StepFrame(st, scope, o, nodes[0]);
      Walk(st1, scope, o, nodes[1..])
  }

  /** The models of a sequence of nodes. */
  function Visited(nodes: seq<Node>): (r: set<ModelName>)
    ensures forall i :: 0 <= i < |nodes| ==> nodes[i].model in r
    ensures forall m :: m in r ==> exists i :: 0 <= i < |nodes| && nodes[i].model == m
  {
    if |nodes| == 0 then {}
    else
      var rest := Visited(nodes[1..]);
      assert forall m :: m in rest ==> exists i :: 0 <= i < |nodes| && nodes[i].model == m by {
        forall m | m in rest ensures exists i :: 0 <= i < |nodes| && nodes[i].model == m {
          var i :| 0 <= i < |nodes[1..]| && nodes[1..][i].model == m;
          assert nodes[i + 1].model == m;
        }
      }
      {nodes[0].model} + rest
  }

  /** A walk keeps the generator consistent, leaves the registry, graph, model
      dependencies and order alone, and creates a scratch record for exactly the
      models it visits that had none, keeping the ones that existed. */
  lemma {:induction false} WalkSpec(st: State, scope: map<ModelName, ModelDef>, o: Oracle, nodes: seq<Node>)
    requires Consistent(st)
    requires Walk(st, scope, o, nodes).Ok?
    ensures var r := Walk(st, scope, o, nodes).value;
      && Consistent(r)
      && r.reg == st.reg && r.graph == st.graph && r.md == st.md && r.dag == st.dag
      && r.instances.Keys == st.instances.Keys + Visited(nodes)
    decreases |nodes|
  {
    if |nodes| > 0 {
      var st1 := Step(st, scope, o, nodes[0]).value;
      StepFrame(st, scope, o, nodes[0]);
      WalkSpec(st1, scope, o, nodes[1..]);
    }
  }

  /** Lines 272-273: a copy of every scratch record is appended to its model's
      finalized rows. */
  function Finalize(st: State): (r: State)
    requires forall k :: k in st.instances ==> k in st.reg.raw
  {
    var raw := map k | k in st.reg.raw :: if k in st.instances then st.reg.raw[k] + st.instances[k] else st.reg.raw[k];
    st.(reg := st.reg.(raw := raw))
  }

  /** Finalizing appends exactly one row, the scratch record, to each model that
      has one, keeps every earlier row, leaves the other models' rows alone, and
      keeps the scratch records (they are never cleared). */
  lemma FinalizeSpec(st: State)
    requires Consistent(st)
    ensures Consistent(Finalize(st))
    ensures Finalize(st).instances == st.instances && Finalize(st).reg.models == st.reg.models
    ensures Finalize(st).reg.raw.Keys == st.reg.raw.Keys
    ensures forall k :: k in st.instances ==>
      Finalize(st).reg.raw[k] == st.reg.raw[k] + [Scratch(st, k)]
    ensures forall k :: k in st.reg.raw && k !in st.instances ==> Finalize(st).reg.raw[k] == st.reg.raw[k]
  {
    forall k | k in st.instances
      ensures st.instances[k] == [Scratch(st, k)]
    {
    }
  }

  /** `generate_from_dag()`: build if there are no model dependencies yet, walk the
      order, and finalize. */
  function Generate(st: State, scope: map<ModelName, ModelDef>, o: Oracle): (r: Outcome<State>)
    requires Consistent(st) && ValidScope(scope)
  {
    var built :- if |st.md| == 0 then Build(st, scope) else Ok(st);
    assert Consistent(built) by {
      if |st.md| == 0 {
        BuildCorrect(st, scope);
      }
    }
    var walked :- Walk(built, scope, o, built.dag);
    WalkSpec(built, scope, o, built.dag);
    Ok(Finalize(walked))
  }

  /** A build keeps every finalized row and gives the models it registers no
      rows. */
  lemma BuildRows(st: State, scope: map<ModelName, ModelDef>)
    requires Consistent(st) && ValidScope(scope)
    requires Build(st, scope).Ok?
    ensures forall k :: k in st.reg.raw ==> k in Build(st, scope).value.reg.raw
    ensures forall k :: k in Build(st, scope).value.reg.raw ==>
      Build(st, scope).value.reg.raw[k] == if k in st.reg.raw then st.reg.raw[k] else []
  {
    var res := BuildFieldDependencies(st.reg, scope).value;
    ClosureRegisters(st.reg, scope);
    assert Build(st, scope).value.reg == res.0;
    forall k | k in res.0.raw && k !in st.reg.raw
      ensures res.0.raw[k] == []
    {
      assert k in res.0.models && k !in st.reg.models;
      assert k in ToSet(res.2);
    }
  }

  /** A pass keeps the generator consistent; it rebuilds the graph only when there
      are no model dependencies, and otherwise reuses the registry's models, the
      graph and the order as they are. Every model the order visits ends up with
      exactly one more finalized row: its scratch record as the walk left it, after
      all of its earlier rows (none for a model the build registered). The rows of
      every other model stay as they were. */
  lemma GenerateSpec(st: State, scope: map<ModelName, ModelDef>, o: Oracle)
    requires Consistent(st) && ValidScope(scope)
    requires Generate(st, scope, o).Ok?
    ensures var r := Generate(st, scope, o).value;
      && Consistent(r)
      && (|st.md| > 0 ==> r.reg.models == st.reg.models && r.graph == st.graph && r.md == st.md && r.dag == st.dag)
      && (|st.md| == 0 ==> Build(st, scope).Ok? && r.dag == Build(st, scope).value.dag && r.md == Build(st, scope).value.md)
      && (forall i :: 0 <= i < |r.dag| ==> r.dag[i].model in r.instances)
      && (forall k :: k in r.instances ==>
            k in r.reg.raw && r.reg.raw[k] == (if k in st.reg.raw then st.reg.raw[k] else []) + [Scratch(r, k)])
      && (forall k :: k in st.reg.raw && k !in r.instances ==> k in r.reg.raw && r.reg.raw[k] == st.reg.raw[k])
  {
    var built := if |st.md| == 0 then Build(st, scope).value else st;
    if |st.md| == 0 {
      BuildCorrect(st, scope);
      BuildRows(st, scope);
    }
    var walked := Walk(built, scope, o, built.dag).value;
    WalkSpec(built, scope, o, built.dag);
    FinalizeSpec(walked);
    FinalRows(st, built, walked);
  }

  /** The rows after finalizing a walk over `built`, in terms of the rows before
      the build. */
  lemma FinalRows(st: State, built: State, walked: State)
    requires Consistent(walked) && walked.reg == built.reg
    requires forall k :: k in st.reg.raw ==> k in built.reg.raw
    requires forall k :: k in built.reg.raw ==> built.reg.raw[k] == if k in st.reg.raw then st.reg.raw[k] else []
    ensures var r := Finalize(walked);
      && (forall k :: k in r.instances ==>
            k in r.reg.raw && r.reg.raw[k] == (if k in st.reg.raw then st.reg.raw[k] else []) + [Scratch(r, k)])
      && (forall k :: k in st.reg.raw && k !in r.instances ==> k in r.reg.raw && r.reg.raw[k] == st.reg.raw[k])
  {
    FinalizeSpec(walked);
  }

  /** The customer model of the generator's tests: a sequential `id` in the
      "customer" namespace and a drawn `name`. */
  function Customer(): ModelDef {
    ModelDef("Customer", [
      FieldDecl("id", Metadata(Some(Directive("sequential_number", Args(None, None, None, None, None, Noop, Noop, Some("customer")))))),
      FieldDecl("name", Metadata(Some(Directive("name", Args(None, None, None, None, None, Noop, Noop, None)))))])
  }

  /** The registry after `register(Customer)` on a fresh generator. */
  function CustomerRegistry(): (reg: Registry)
    ensures Valid(reg) && reg == Register(Empty(), Customer())
  {
    assert FieldNames(Customer()) == ["id", "name"];
    assert [] + ["Customer"] == ["Customer"];
    Registry(["Customer"], map["Customer" := Customer()], map["Customer" := []])
  }

  /** The customer model's field graph: both fields are nodes that read nothing. */
  function CustomerGraph(): FieldGraph {
    FieldGraph([Node("Customer", "id"), Node("Customer", "name")],
               map[Node("Customer", "id") := {}, Node("Customer", "name") := {}])
  }

  /** The generator after the customer model's graph is built: both fields are
      nodes without dependencies, and no pass has run. */
  function CustomerBuilt(): (st: State)
    ensures Consistent(st)
  {
    State(CustomerRegistry(), CustomerGraph(), map["Customer" := {}], CustomerGraph().keys, map[], map[], 0)
  }

  /** The scan of the customer model finds no model to register and makes each
      field a node with no dependencies. */
  lemma CustomerRound()
    ensures Round(CustomerRegistry(), map[]) == Ok((CustomerGraph(), []))
  {
    var reg := CustomerRegistry();
    var d := Customer();
    var known := reg.models.Keys;
    var items := Items(reg.order, reg.models);
    assert Items(reg.order[1..], reg.models) == [];
    assert items == [Item("Customer", d.decls[0]), Item("Customer", d.decls[1])];
    assert FieldEntry(d.decls[0]) == Ok(Some({})) && Referenced(d.decls[0]) == None;
    assert FieldEntry(d.decls[1]) == Ok(Some({})) && Referenced(d.decls[1]) == None;
    var g0 := FieldGraph([], map[]);
    var g1 := AddEntry(g0, items[0], Some({}));
    var g2 := AddEntry(g1, items[1], Some({}));
    assert g2 == CustomerGraph();
    assert items[1..][1..] == [];
    assert Scan(items[1..], known, {}, g1, []) == Scan([], known, {}, g2, []);
    assert Scan(items, known, {}, g0, []) == Scan(items[1..], known, {}, g1, []);
  }

  /** The customer model depends on no model. */
  lemma CustomerModelDependencies()
    ensures ModelDependencies(CustomerGraph(), []) == map["Customer" := {}]
  {
    var g := CustomerGraph();
    var deps := g.deps;
    var md0: map<ModelName, set<ModelName>> := map m | m in [] :: {};
    assert md0 == map[];
    assert ModelsOf({}) == {};
    var md1 := map["Customer" := {}];
    assert CollectModelDeps(g.keys, deps, md0) == CollectModelDeps(g.keys[1..], deps, md1);
    assert g.keys[1..][1..] == [];
    assert CollectModelDeps(g.keys[1..], deps, md1) == CollectModelDeps([], deps, md1);
  }

  /** The customer fields are ordered as declared. */
  lemma CustomerDag()
    ensures BuildFieldDag(CustomerGraph(), map["Customer" := {}]) == Ok(CustomerGraph().keys)
  {
    var g := CustomerGraph();
    assert WellFormed(g) && Edgeless(g);
    EdgelessDag(g, map["Customer" := {}]);
  }

  /** `register(Customer)` followed by `_build_model_dependencies()`: the models,
      the model dependencies, the field dependencies and the field order the
      basic-schema test asserts. */
  lemma CustomerBuild()
    ensures Build(Start(Register(Empty(), Customer())), map[]) == Ok(CustomerBuilt())
    ensures var st := CustomerBuilt();
      && st.reg.models == map["Customer" := Customer()]
      && st.md == map["Customer" := {}]
      && st.graph.deps == map[Node("Customer", "id") := {}, Node("Customer", "name") := {}]
      && st.dag == [Node("Customer", "id"), Node("Customer", "name")]
  {
    var reg := CustomerRegistry();
    var g := CustomerGraph();
    CustomerRound();
    assert BuildFieldDependencies(reg, map[]) == Ok((reg, g, []));
    CustomerModelDependencies();
    CustomerDag();
  }

  /** A Faker whose `name` producer always returns "Norma Fisher". */
  function Names(): Oracle {
    Oracle({"name"}, (d: Directive, t: nat) => Str("Norma Fisher"), (t: nat) => 0)
  }

  /** A finalized customer row of the tests: the given number and the drawn name. */
  function CustomerRow(id: int): Fields {
    map["id" := Int(id), "name" := Str("Norma Fisher")]
  }

  /** Visiting `Customer.id` numbers the customer's scratch record with the next
      number of the "customer" namespace and leaves its other fields alone. */
  lemma CustomerIdStep(st: State)
    requires Consistent(st) && "Customer" in st.reg.models && st.reg.models["Customer"] == Customer()
    ensures Step(st, map[], Names(), Node("Customer", "id")).Ok?
    ensures var r := Step(st, map[], Names(), Node("Customer", "id")).value;
      && Consistent(r) && r.reg == st.reg && r.md == st.md && r.dag == st.dag
      && "Customer" in r.instances
      && Scratch(r, "Customer") == Current(st, "Customer")["id" := Int(Next(st.counters, "customer").1)]
      && r.counters == Next(st.counters, "customer").0
  {
    var decl := Customer().decls[0];
    assert DeclOf(Customer().decls, "id") == Some(decl);
    assert Acting(Names(), decl) == decl.annotation.directive;
    StepEffect(st, map[], Names(), Node("Customer", "id"));
    StepFrame(st, map[], Names(), Node("Customer", "id"));
  }

  /** Visiting `Customer.name` stores the drawn name in the scratch record and
      leaves the counters alone. */
  lemma CustomerNameStep(st: State)
    requires Consistent(st) && "Customer" in st.reg.models && st.reg.models["Customer"] == Customer()
    requires "Customer" in st.instances
    ensures Step(st, map[], Names(), Node("Customer", "name")).Ok?
    ensures var r := Step(st, map[], Names(), Node("Customer", "name")).value;
      && Consistent(r) && r.reg == st.reg && r.md == st.md && r.dag == st.dag
      && "Customer" in r.instances
      && Scratch(r, "Customer") == Scratch(st, "Customer")["name" := Str("Norma Fisher")]
      && r.counters == st.counters
  {
    var decl := Customer().decls[1];
    assert Customer().decls[1..][0] == decl;
    assert DeclOf(Customer().decls, "name") == Some(decl);
    assert Acting(Names(), decl) == decl.annotation.directive;
    StepEffect(st, map[], Names(), Node("Customer", "name"));
    StepFrame(st, map[], Names(), Node("Customer", "name"));
  }

  /** A walk over two nodes is the two steps in turn. */
  lemma WalkPair(st: State, scope: map<ModelName, ModelDef>, o: Oracle, a: Node, b: Node)
    requires Consistent(st) && Step(st, scope, o, a).Ok?
    requires Consistent(Step(st, scope, o, a).value) && Step(Step(st, scope, o, a).value, scope, o, b).Ok?
    ensures Walk(st, scope, o, [a, b]) == Step(Step(st, scope, o, a).value, scope, o, b)
  {
    var s1 := Step(st, scope, o, a).value;
    WalkOne(s1, scope, o, b);
    assert [a, b][1..] == [b];
  }

  /** A walk over one node is that node's step. */
  lemma WalkOne(st: State, scope: map<ModelName, ModelDef>, o: Oracle, b: Node)
    requires Consistent(st)
    ensures Walk(st, scope, o, [b]) == Step(st, scope, o, b)
  {
    assert [b][1..] == [];
  }

  /** The walk over an already built customer model, whose order is `id`, `name`:
      the scratch record gets the next number, then the name. */
  lemma CustomerWalk(st: State)
    requires Consistent(st) && st.reg.models == map["Customer" := Customer()]
    requires st.dag == [Node("Customer", "id"), Node("Customer", "name")]
    ensures Walk(st, map[], Names(), st.dag).Ok?
    ensures var w := Walk(st, map[], Names(), st.dag).value;
      && Consistent(w) && w.reg == st.reg && w.md == st.md && w.dag == st.dag
      && "Customer" in w.instances
      && Scratch(w, "Customer") == Current(st, "Customer")["id" := Int(Next(st.counters, "customer").1)]["name" := Str("Norma Fisher")]
      && w.counters == Next(st.counters, "customer").0
  {
    var id := Node("Customer", "id");
    var name := Node("Customer", "name");
    CustomerIdStep(st);
    var s1 := Step(st, map[], Names(), id).value;
    CustomerNameStep(s1);
    WalkPair(st, map[], Names(), id, name);
  }

  /** `r` is `st` after one pass over the customer model: the finalized rows grow
      by one row, the scratch record with the next customer number and the name. */
  predicate CustomerPassed(st: State, r: State)
    requires Consistent(st) && "Customer" in st.reg.models
  {
    && Consistent(r) && r.reg.models == st.reg.models && r.md == st.md && r.dag == st.dag
    && r.instances.Keys == {"Customer"} && r.instances["Customer"] == [Scratch(r, "Customer")]
    && Scratch(r, "Customer") == Current(st, "Customer")["id" := Int(Next(st.counters, "customer").1)]["name" := Str("Norma Fisher")]
    && "Customer" in st.reg.raw
    && r.reg.raw == map["Customer" := st.reg.raw["Customer"] + [Scratch(r, "Customer")]]
    && r.counters == Next(st.counters, "customer").0
  }

  /** Once the model dependencies exist, a pass is the walk over the stored
      order followed by finalizing. */
  lemma PassOfBuilt(st: State, scope: map<ModelName, ModelDef>, o: Oracle)
    requires Consistent(st) && ValidScope(scope) && |st.md| > 0
    requires Walk(st, scope, o, st.dag).Ok?
    ensures Consistent(Walk(st, scope, o, st.dag).value)
    ensures Generate(st, scope, o) == Ok(Finalize(Walk(st, scope, o, st.dag).value))
  {
    WalkSpec(st, scope, o, st.dag);
  }

  /** Finalizing a generator whose only model is the customer model appends its
      scratch record to its rows. */
  lemma FinalizeCustomer(w: State)
    requires Consistent(w) && w.reg.models.Keys == {"Customer"} && "Customer" in w.instances
    ensures Consistent(Finalize(w)) && Finalize(w).reg.models == w.reg.models
    ensures Finalize(w).instances == w.instances && w.instances.Keys == {"Customer"}
    ensures w.instances["Customer"] == [Scratch(w, "Customer")]
    ensures Finalize(w).reg.raw == map["Customer" := w.reg.raw["Customer"] + [Scratch(w, "Customer")]]
  {
    FinalizeSpec(w);
    assert w.reg.raw.Keys == {"Customer"};
    var raw := Finalize(w).reg.raw;
    assert raw.Keys == {"Customer"};
    assert raw["Customer"] == w.reg.raw["Customer"] + [Scratch(w, "Customer")];
  }

  /** One pass over an already built customer model finalizes one more customer. */
  lemma CustomerPass(st: State)
    requires Consistent(st) && st.reg.models == map["Customer" := Customer()]
    requires st.md == map["Customer" := {}] && st.dag == [Node("Customer", "id"), Node("Customer", "name")]
    ensures Generate(st, map[], Names()).Ok?
    ensures CustomerPassed(st, Generate(st, map[], Names()).value)
  {
    CustomerWalk(st);
    PassOfBuilt(st, map[], Names());
    WalkedPassed(st, Walk(st, map[], Names(), st.dag).value);
  }

  /** Finalizing the walk of `CustomerWalk` is one pass. */
  lemma WalkedPassed(st: State, w: State)
    requires Consistent(st) && st.reg.models == map["Customer" := Customer()]
    requires Consistent(w) && w.reg == st.reg && w.md == st.md && w.dag == st.dag
    requires "Customer" in w.instances
    requires Scratch(w, "Customer") == Current(st, "Customer")["id" := Int(Next(st.counters, "customer").1)]["name" := Str("Norma Fisher")]
    requires w.counters == Next(st.counters, "customer").0
    ensures CustomerPassed(st, Finalize(w))
  {
    FinalizeCustomer(w);
  }

  /** The generator after `n` passes over the customer model: the rows of
      customers 1 to `n`, the scratch record of customer `n` and the counter at
      `n`. */
  predicate CustomerAfter(st: State, n: nat) {
    && Consistent(st) && st.reg.models == map["Customer" := Customer()]
    && st.md == map["Customer" := {}] && st.dag == [Node("Customer", "id"), Node("Customer", "name")]
    && st.reg.raw == map["Customer" := Customers(n)]
    && (if n == 0 then st.instances == map[] && st.counters == map[]
        else st.instances == map["Customer" := [CustomerRow(n)]] && st.counters == map["customer" := n])
  }

  /** A fresh customer scratch record has both fields unset. */
  lemma FreshCustomer()
    ensures NewScratch(Customer()) == map["id" := Null, "name" := Null]
  {
    assert FieldNames(Customer()) == ["id", "name"];
  }

  /** The customer numbered `n + 1` is the scratch record after `n` passes with
      the next number and the drawn name. */
  lemma NextCustomer(st: State, n: nat)
    requires CustomerAfter(st, n)
    ensures Next(st.counters, "customer") == (map["customer" := n + 1], n + 1)
    ensures Current(st, "Customer")["id" := Int(n + 1)]["name" := Str("Norma Fisher")] == CustomerRow(n + 1)
  {
    var row := Current(st, "Customer");
    if n == 0 {
      FreshCustomer();
      assert row == map["id" := Null, "name" := Null];
      assert st.counters["customer" := 1] == map["customer" := 1];
    } else {
      assert row == CustomerRow(n);
      assert st.counters["customer" := n + 1] == map["customer" := n + 1];
    }
    RenumberCustomer(row, n + 1);
  }

  /** Numbering and naming a customer record overwrites both of its fields. */
  lemma RenumberCustomer(row: Fields, id: int)
    requires row.Keys == {"id", "name"}
    ensures row["id" := Int(id)]["name" := Str("Norma Fisher")] == CustomerRow(id)
  {
  }

  /** The rows of customers 1 to `n`. */
  function Customers(n: nat): (rows: seq<Fields>)
    ensures |rows| == n
  {
    if n == 0 then [] else Customers(n - 1) + [CustomerRow(n)]
  }

  /** A pass from `CustomerAfter(st, n)` leads to `CustomerAfter(r, n + 1)`. */
  lemma PassedAfter(st: State, r: State, n: nat)
    requires CustomerAfter(st, n) && CustomerPassed(st, r)
    ensures CustomerAfter(r, n + 1)
  {
    NextCustomer(st, n);
    assert Scratch(r, "Customer") == CustomerRow(n + 1);
    AfterParts(r, n);
  }

  /** The parts of `CustomerAfter(r, n + 1)`, one by one. */
  lemma AfterParts(r: State, n: nat)
    requires Consistent(r) && r.reg.models == map["Customer" := Customer()]
    requires r.md == map["Customer" := {}] && r.dag == [Node("Customer", "id"), Node("Customer", "name")]
    requires r.instances.Keys == {"Customer"} && r.instances["Customer"] == [CustomerRow(n + 1)]
    requires r.reg.raw == map["Customer" := Customers(n) + [CustomerRow(n + 1)]]
    requires r.counters == map["customer" := n + 1]
    ensures CustomerAfter(r, n + 1)
  {
    assert r.instances == map["Customer" := [CustomerRow(n + 1)]];
  }

  /** Each pass from `CustomerAfter(st, n)` finalizes customer `n + 1`. */
  lemma CustomerNextPass(st: State, n: nat)
    requires CustomerAfter(st, n)
    ensures Generate(st, map[], Names()).Ok?
    ensures CustomerAfter(Generate(st, map[], Names()).value, n + 1)
  {
    CustomerPass(st);
    PassedAfter(st, Generate(st, map[], Names()).value, n);
  }

  /** The basic-schema test: registering the customer model, building it and
      running one pass finalizes exactly `Customer(id=1, name="Norma Fisher")`. */
  lemma CustomerFirstPass()
    ensures Build(Start(Register(Empty(), Customer())), map[]) == Ok(CustomerBuilt())
    ensures Generate(CustomerBuilt(), map[], Names()).Ok?
    ensures Generate(CustomerBuilt(), map[], Names()).value.reg.raw == map["Customer" := [CustomerRow(1)]]
  {
    CustomerBuild();
    assert CustomerAfter(CustomerBuilt(), 0);
    CustomerNextPass(CustomerBuilt(), 0);
    assert Customers(1) == [CustomerRow(1)];
  }

  /** A second pass keeps customer 1 and finalizes customer 2 after it, filling
      the same scratch record again. */
  lemma CustomerSecondPass(st: State)
    requires CustomerAfter(st, 1)
    ensures Generate(st, map[], Names()).Ok?
    ensures Generate(st, map[], Names()).value.reg.raw == map["Customer" := [CustomerRow(1), CustomerRow(2)]]
  {
    CustomerNextPass(st, 1);
    CustomersTwo(Generate(st, map[], Names()).value);
  }

  /** Two passes leave the rows of customers 1 and 2. */
  lemma CustomersTwo(r: State)
    requires CustomerAfter(r, 2)
    ensures r.reg.raw == map["Customer" := [CustomerRow(1), CustomerRow(2)]]
  {
    assert Customers(2) == [CustomerRow(1), CustomerRow(2)];
  }

  /** Two passes on a freshly registered customer model, the first of which builds
      the graph itself because no model dependencies exist yet, finalize customers
      1 and 2 in that order. */
  lemma CustomerTwoPasses()
    ensures Consistent(Start(Register(Empty(), Customer())))
    ensures Generate(Start(Register(Empty(), Customer())), map[], Names()).Ok?
    ensures var first := Generate(Start(Register(Empty(), Customer())), map[], Names()).value;
      && Consistent(first) && Generate(first, map[], Names()).Ok?
      && Generate(first, map[], Names()).value.reg.raw == map["Customer" := [CustomerRow(1), CustomerRow(2)]]
  {
    var st := Start(CustomerRegistry());
    StartConsistent(CustomerRegistry());
    CustomerBuild();
    assert |st.md| == 0;
    assert Generate(st, map[], Names()) == Generate(CustomerBuilt(), map[], Names());
    assert CustomerAfter(CustomerBuilt(), 0);
    CustomerNextPass(CustomerBuilt(), 0);
    CustomerSecondPass(Generate(CustomerBuilt(), map[], Names()).value);
  }
}
