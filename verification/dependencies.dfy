/** Building the field dependency graph and the model dependencies
    (`_build_field_dependencies`, FakeSchemaGenerator.py:114-151, and
    `_build_model_dependencies`, lines 153-166): every registered model's annotated
    fields become nodes, a `reference` / `calculate` field depends on the fields it
    reads, and models it reads that are not registered yet are registered and the
    scan repeats until no new model turns up. */
module Dependencies {
  import opened Wrappers
  import opened Seqs
  import opened Schema
  import opened Registry
  import opened FieldGraphs

  function NonEmpty(): FieldName -> bool {
    (f: FieldName) => f != ""
  }

  /** `f` is one of the fields a directive reads: a non-empty entry of
      `[field, *fields]`. */
  predicate IsTarget(a: Args, f: FieldName) {
    f != "" && a.field.Some? && (f == a.field.value || (a.fields.Some? && f in a.fields.value))
  }

  /** `[kwargs.get("field"), *kwargs.get("fields", [])]` with the empty names the
      loop skips removed (lines 131-136); without `field` the loop's `len(None)`
      raises. */
  function TargetFields(a: Args): (r: Outcome<seq<FieldName>>)
    ensures r.Err? <==> a.field.None?
    ensures r.Err? ==> r.error == MissingArgument("field")
    ensures r.Ok? ==> forall f :: f in r.value <==> IsTarget(a, f)
  {
    if a.field.None? then Err(MissingArgument("field"))
    else Ok(Filter([a.field.value] + a.fields.GetOr([]), NonEmpty()))
  }

  /** The edges of a `reference` / `calculate` field (lines 135-143): one into
      `(model, f)` for each field it reads; reading a field without naming a
      `model` raises. */
  function DirectiveEdges(a: Args): (r: Outcome<set<Node>>)
    ensures r.Ok? <==> a.field.Some? && (a.model.Some? || forall f :: !IsTarget(a, f))
    ensures r.Err? ==> r.error == if a.field.None? then MissingArgument("field") else MissingArgument("model")
    ensures r.Ok? ==> forall n :: n in r.value <==> a.model.Some? && n.model == a.model.value && IsTarget(a, n.field)
  {
    var names :- TargetFields(a);
    if |names| == 0 then Ok({})
    else if a.model.None? then
      assert IsTarget(a, names[0]);
      Err(MissingArgument("model"))
    else Ok(set f | f in names :: Node(a.model.value, f))
  }

  /** A field's entry in `_field_dependencies` (lines 119-145): a field without
      metadata is no node (`None`); a field whose first `FakeType` is a
      `reference` / `calculate` directive depends on the fields that directive
      reads; any other annotated field is a node without dependencies. */
  function FieldEntry(decl: FieldDecl): (r: Outcome<Option<set<Node>>>)
    ensures r == Ok(None) <==> decl.annotation.Bare?
    ensures decl.annotation == Metadata(None) ==> r == Ok(Some({}))
    ensures decl.annotation.Metadata? && decl.annotation.directive.Some? ==>
      var d := decl.annotation.directive.value;
      if d.kind in GraphClosing then
        (r.Ok? <==> DirectiveEdges(d.args).Ok?) && (r.Ok? ==> r.value == Some(DirectiveEdges(d.args).value))
      else r == Ok(Some({}))
  {
    match decl.annotation
    case Bare => Ok(None)
    case Metadata(None) => Ok(Some({}))
    case Metadata(Some(d)) =>
      if d.kind in GraphClosing then
        var edges :- DirectiveEdges(d.args);
        Ok(Some(edges))
      else Ok(Some({}))
  }

  /** The model whose fields a field reads, when it reads any: the `model` keyword
      checked against the registry at line 137. */
  function Referenced(decl: FieldDecl): (r: Option<ModelName>)
    ensures r.Some? <==> FieldEntry(decl).Ok? && FieldEntry(decl).value.Some? && FieldEntry(decl).value.value != {}
    ensures r.Some? ==> forall n :: n in FieldEntry(decl).value.value ==> n.model == r.value
  {
    match decl.annotation
    case Bare => None
    case Metadata(None) => None
    case Metadata(Some(d)) =>
      if d.kind in GraphClosing && d.args.field.Some? && d.args.model.Some? && |TargetFields(d.args).value| > 0 then
        assert Node(d.args.model.value, TargetFields(d.args).value[0]) in DirectiveEdges(d.args).value;
        Some(d.args.model.value)
      else None
  }

  /** One field of one registered model, in the order of the scan. */
  datatype Item = Item(model: ModelName, decl: FieldDecl)

  function NodeOf(it: Item): Node {
    Node(it.model, it.decl.name)
  }

  predicate IsNode(it: Item) {
    it.decl.annotation.Metadata?
  }

  /** The fields of model `m` in declaration order. */
  function ItemsOf(m: ModelName, decls: seq<FieldDecl>): (r: seq<Item>)
    ensures |r| == |decls|
    ensures forall i :: 0 <= i < |r| ==> r[i] == Item(m, decls[i])
  {
    seq(|decls|, i requires 0 <= i < |decls| => Item(m, decls[i]))
  }

  /** Lines 116-117: the models in registration order, each one's fields in
      declaration order. */
  function Items(order: seq<ModelName>, models: map<ModelName, ModelDef>): seq<Item>
    requires forall m :: m in order ==> m in models
    decreases |order|
  {
    if |order| == 0 then []
    else ItemsOf(order[0], models[order[0]].decls) + Items(order[1..], models)
  }

  /** The nodes the items contribute, in order. */
  function NodeKeys(items: seq<Item>): (r: seq<Node>)
    ensures forall n :: n in r <==> exists it :: it in items && IsNode(it) && NodeOf(it) == n
    decreases |items|
  {
    if |items| == 0 then []
    else
      var rest := NodeKeys(items[1..]);
      assert forall it :: it in items[1..] ==> it in items;
      assert forall it :: it in items ==> it == items[0] || it in items[1..];
      (if IsNode(items[0]) then [NodeOf(items[0])] else []) + rest
  }

  /** Line 137: a model the field reads that is not registered is resolved (which
      fails for an unknown name) and remembered for registration, once. */
  function Discover(ref: Option<ModelName>, known: set<ModelName>, scope: set<ModelName>, found: seq<ModelName>): (r: Outcome<seq<ModelName>>)
    ensures r.Err? <==> ref.Some? && ref.value !in known && ref.value !in scope
    ensures r.Err? ==> r.error == UnknownModel(ref.value)
    ensures r.Ok? ==> r.value == if ref.Some? && ref.value !in known && ref.value !in found then found + [ref.value] else found
  {
    if ref.None? || ref.value in known then Ok(found)
    else if ref.value !in scope then Err(UnknownModel(ref.value))
    else if ref.value in found then Ok(found)
    else Ok(found + [ref.value])
  }

  /** Line 130 or 145: a field with metadata becomes a node with its entry. */
  function AddEntry(g: FieldGraph, it: Item, entry: Option<set<Node>>): FieldGraph {
    if entry.Some? then FieldGraph(g.keys + [NodeOf(it)], g.deps[NodeOf(it) := entry.value]) else g
  }

  /** One pass of lines 116-145 over `items`, adding nodes to `g` and unregistered
      models to `found`; the first failing field aborts the pass. */
  function Scan(items: seq<Item>, known: set<ModelName>, scope: set<ModelName>, g: FieldGraph, found: seq<ModelName>): Outcome<(FieldGraph, seq<ModelName>)>
    decreases |items|
  {
    if |items| == 0 then Ok((g, found))
    else
      var it := items[0];
      var entry :- FieldEntry(it.decl);
      var found1 :- Discover(Referenced(it.decl), known, scope, found);
      Scan(items[1..], known, scope, AddEntry(g, it, entry), found1)
  }

  /** A field the pass gets through: its directive is well-formed and the model it
      reads is registered or can be resolved. */
  predicate ItemOk(it: Item, known: set<ModelName>, scope: set<ModelName>) {
    FieldEntry(it.decl).Ok? && (Referenced(it.decl).Some? ==> Referenced(it.decl).value in known || Referenced(it.decl).value in scope)
  }

  /** A pass fails exactly when one of its fields does. */
  lemma {:induction false} ScanOk(items: seq<Item>, known: set<ModelName>, scope: set<ModelName>, g: FieldGraph, found: seq<ModelName>)
    ensures Scan(items, known, scope, g, found).Ok? <==> forall it :: it in items ==> ItemOk(it, known, scope)
    decreases |items|
  {
    if |items| > 0 {
      var it := items[0];
      assert forall x :: x in items <==> x == it || x in items[1..];
      var entry := FieldEntry(it.decl);
      var found1 := Discover(Referenced(it.decl), known, scope, found);
      assert ItemOk(it, known, scope) <==> entry.Ok? && found1.Ok?;
      if entry.Ok? && found1.Ok? {
        var g1 := AddEntry(g, it, entry.value);
        assert Scan(items, known, scope, g, found) == Scan(items[1..], known, scope, g1, found1.value);
        ScanOk(items[1..], known, scope, g1, found1.value);
      } else {
        assert Scan(items, known, scope, g, found).Err?;
      }
    }
  }

  /** A successful pass is its first field's step followed by the pass over the
      rest. */
  lemma ScanStep(items: seq<Item>, known: set<ModelName>, scope: set<ModelName>, g: FieldGraph, found: seq<ModelName>)
    requires |items| > 0 && Scan(items, known, scope, g, found).Ok?
    ensures FieldEntry(items[0].decl).Ok? && Discover(Referenced(items[0].decl), known, scope, found).Ok?
    ensures FieldEntry(items[0].decl).value.Some? <==> IsNode(items[0])
    ensures var g1 := AddEntry(g, items[0], FieldEntry(items[0].decl).value);
      var found1 := Discover(Referenced(items[0].decl), known, scope, found).value;
      Scan(items, known, scope, g, found) == Scan(items[1..], known, scope, g1, found1)
    ensures NodeKeys(items) == (if IsNode(items[0]) then [NodeOf(items[0])] else []) + NodeKeys(items[1..])
  {
  }

  /** A successful pass appends the items' nodes to the key order. */
  lemma {:induction false} ScanKeys(items: seq<Item>, known: set<ModelName>, scope: set<ModelName>, g: FieldGraph, found: seq<ModelName>)
    requires Scan(items, known, scope, g, found).Ok?
    ensures Scan(items, known, scope, g, found).value.0.keys == g.keys + NodeKeys(items)
    decreases |items|
  {
    if |items| > 0 {
      ScanStep(items, known, scope, g, found);
      var it := items[0];
      var g1 := AddEntry(g, it, FieldEntry(it.decl).value);
      ScanKeys(items[1..], known, scope, g1, Discover(Referenced(it.decl), known, scope, found).value);
      if IsNode(it) {
        assert g.keys + NodeKeys(items) == g1.keys + NodeKeys(items[1..]);
      }
    }
  }

  /** A successful pass maps exactly the items' nodes besides the old ones, and
      leaves every old node that is not among them alone. */
  lemma {:induction false} ScanDeps(items: seq<Item>, known: set<ModelName>, scope: set<ModelName>, g: FieldGraph, found: seq<ModelName>)
    requires Scan(items, known, scope, g, found).Ok?
    ensures Scan(items, known, scope, g, found).value.0.deps.Keys == g.deps.Keys + ToSet(NodeKeys(items))
    ensures forall n :: n in g.deps && n !in NodeKeys(items) ==> Scan(items, known, scope, g, found).value.0.deps[n] == g.deps[n]
    decreases |items|
  {
    if |items| > 0 {
      ScanStep(items, known, scope, g, found);
      var it := items[0];
      var g1 := AddEntry(g, it, FieldEntry(it.decl).value);
      ScanDeps(items[1..], known, scope, g1, Discover(Referenced(it.decl), known, scope, found).value);
      assert ToSet(NodeKeys(items)) == (if IsNode(it) then {NodeOf(it)} else {}) + ToSet(NodeKeys(items[1..]));
    }
  }

  /** After a successful pass over fields with distinct nodes, each field's node
      maps to its own entry. */
  lemma {:induction false} ScanEntries(items: seq<Item>, known: set<ModelName>, scope: set<ModelName>, g: FieldGraph, found: seq<ModelName>)
    requires Scan(items, known, scope, g, found).Ok?
    requires Distinct(NodeKeys(items))
    ensures forall it :: it in items && IsNode(it) ==>
      NodeOf(it) in Scan(items, known, scope, g, found).value.0.deps
      && FieldEntry(it.decl) == Ok(Some(Scan(items, known, scope, g, found).value.0.deps[NodeOf(it)]))
    decreases |items|
  {
    ScanDeps(items, known, scope, g, found);
    if |items| > 0 {
      ScanStep(items, known, scope, g, found);
      var it := items[0];
      var g1 := AddEntry(g, it, FieldEntry(it.decl).value);
      var found1 := Discover(Referenced(it.decl), known, scope, found).value;
      var rest := NodeKeys(items[1..]);
      var keys := NodeKeys(items);
      assert Distinct(rest) by {
        assert rest == keys[|keys| - |rest|..];
      }
      assert IsNode(it) ==> NodeOf(it) !in rest by {
        if IsNode(it) {
          assert keys[0] == NodeOf(it);
          forall k | 0 <= k < |rest| ensures rest[k] != NodeOf(it) {
            assert rest[k] == keys[k + 1];
          }
        }
      }
      ScanEntries(items[1..], known, scope, g1, found1);
      ScanDeps(items[1..], known, scope, g1, found1);
      var r := Scan(items, known, scope, g, found).value.0;
      assert r == Scan(items[1..], known, scope, g1, found1).value.0;
      forall x | x in items && IsNode(x)
        ensures FieldEntry(x.decl) == Ok(Some(r.deps[NodeOf(x)]))
      {
        if x != it {
          assert x in items[1..];
        } else {
          assert NodeOf(x) in g1.deps && NodeOf(x) !in rest;
          assert r.deps[NodeOf(x)] == g1.deps[NodeOf(x)];
        }
      }
    }
  }

  /** A successful pass appends the items' nodes to the key order and maps each
      to its field's entry, leaving the other nodes alone. */
  lemma ScanGraph(items: seq<Item>, known: set<ModelName>, scope: set<ModelName>, g: FieldGraph, found: seq<ModelName>)
    requires Scan(items, known, scope, g, found).Ok?
    requires Distinct(NodeKeys(items))
    ensures Scan(items, known, scope, g, found).value.0.keys == g.keys + NodeKeys(items)
    ensures Scan(items, known, scope, g, found).value.0.deps.Keys == g.deps.Keys + ToSet(NodeKeys(items))
    ensures forall n :: n in g.deps && n !in NodeKeys(items) ==> Scan(items, known, scope, g, found).value.0.deps[n] == g.deps[n]
    ensures forall it :: it in items && IsNode(it) ==>
      FieldEntry(it.decl) == Ok(Some(Scan(items, known, scope, g, found).value.0.deps[NodeOf(it)]))
  {
    ScanKeys(items, known, scope, g, found);
    ScanDeps(items, known, scope, g, found);
    ScanEntries(items, known, scope, g, found);
  }

  /** Some field among `items` reads model `t`. */
  predicate ReadBy(items: seq<Item>, t: ModelName) {
    exists it :: it in items && Referenced(it.decl) == Some(t)
  }

  /** A successful pass remembers, after those already found and each once, every
      unregistered model its fields read, and nothing else. */
  lemma {:induction false} ScanFound(items: seq<Item>, known: set<ModelName>, scope: set<ModelName>, g: FieldGraph, found: seq<ModelName>)
    requires Scan(items, known, scope, g, found).Ok?
    requires Distinct(found)
    requires forall m :: m in found ==> m in scope && m !in known
    ensures |Scan(items, known, scope, g, found).value.1| >= |found|
    ensures Scan(items, known, scope, g, found).value.1[..|found|] == found
    ensures Distinct(Scan(items, known, scope, g, found).value.1)
    ensures forall m :: m in Scan(items, known, scope, g, found).value.1 ==> m in scope && m !in known
    ensures forall it :: it in items && Referenced(it.decl).Some? && Referenced(it.decl).value !in known ==>
      Referenced(it.decl).value in Scan(items, known, scope, g, found).value.1
    ensures forall k :: |found| <= k < |Scan(items, known, scope, g, found).value.1| ==>
      ReadBy(items, Scan(items, known, scope, g, found).value.1[k])
    decreases |items|
  {
    if |items| > 0 {
      var it := items[0];
      var entry := FieldEntry(it.decl).value;
      var found1 := Discover(Referenced(it.decl), known, scope, found).value;
      var g1 := AddEntry(g, it, entry);
      if found1 != found {
        DistinctConcat(found, [Referenced(it.decl).value]);
      }
      ScanFound(items[1..], known, scope, g1, found1);
      var r := Scan(items, known, scope, g, found).value.1;
      assert r == Scan(items[1..], known, scope, g1, found1).value.1;
      assert r[..|found1|] == found1;
      assert r[..|found|] == found by {
        assert found1[..|found|] == found;
        assert r[..|found|] == r[..|found1|][..|found|];
      }
      forall x | x in items && Referenced(x.decl).Some? && Referenced(x.decl).value !in known
        ensures Referenced(x.decl).value in r
      {
        if x == it {
          var t := Referenced(x.decl).value;
          assert t in found1;
          var j :| 0 <= j < |found1| && found1[j] == t;
          assert r[..|found1|][j] == t;
        } else {
          assert x in items[1..];
        }
      }
      forall k | |found| <= k < |r|
        ensures ReadBy(items, r[k])
      {
        if k < |found1| {
          assert found1 != found && k == |found|;
          assert r[k] == r[..|found1|][k] == found1[k];
          assert Referenced(it.decl) == Some(r[k]);
          assert it in items;
        } else {
          assert ReadBy(items[1..], r[k]);
          var x :| x in items[1..] && Referenced(x.decl) == Some(r[k]);
          assert x in items;
        }
      }
    }
  }

  /** `_build_field_dependencies` over the registry as it stands: the graph of one
      pass and the unregistered models it found. */
  function Round(reg: Registry, scope: map<ModelName, ModelDef>): Outcome<(FieldGraph, seq<ModelName>)>
    requires Valid(reg)
  {
    Scan(Items(reg.order, reg.models), reg.models.Keys, scope.Keys, FieldGraph([], map[]), [])
  }

  /** Lines 114-151: scan, register what was found (in the order found), repeat
      until a pass finds nothing. Returns the final registry, the graph of the last
      pass and the models registered on the way (whose model-dependency entries
      line 150 creates). Later passes rebuild the same entries for the models
      already scanned, so the last pass's graph is the dictionary the source ends
      with. */
  function BuildFieldDependencies(reg: Registry, scope: map<ModelName, ModelDef>): Outcome<(Registry, FieldGraph, seq<ModelName>)>
    requires Valid(reg) && ValidScope(scope)
    decreases scope.Keys - reg.models.Keys
  {
    var round :- Round(reg, scope);
    var found := round.1;
    if |found| == 0 then Ok((reg, round.0, []))
    else
      ScanFound(Items(reg.order, reg.models), reg.models.Keys, scope.Keys, FieldGraph([], map[]), []);
      RegisterAllValid(reg, scope, found);
      RegisterAllAppends(reg, scope, found);
      var next := RegisterAll(reg, scope, found);
      assert found[0] in scope.Keys - reg.models.Keys && found[0] in next.models;
      var rest :- BuildFieldDependencies(next, scope);
      Ok((rest.0, rest.1, found + rest.2))
  }

  /** `r` is `reg` with the dataclasses `auto` registered after it, in that order:
      fresh, distinct names taken from the scope, and nothing else changed. */
  predicate Registers(reg: Registry, scope: map<ModelName, ModelDef>, r: Registry, auto: seq<ModelName>) {
    Valid(r) && Appends(reg, scope, r, auto) && Keeps(reg, scope, r, auto)
  }

  /** The order and the set of names grow by `auto`, fresh names from the scope. */
  predicate Appends(reg: Registry, scope: map<ModelName, ModelDef>, r: Registry, auto: seq<ModelName>) {
    && r.order == reg.order + auto
    && Distinct(auto)
    && (forall m :: m in auto ==> m in scope && m !in reg.models)
    && r.models.Keys == reg.models.Keys + ToSet(auto)
  }

  /** Registered models and their rows are kept; the new ones come from the scope
      with no rows. */
  predicate Keeps(reg: Registry, scope: map<ModelName, ModelDef>, r: Registry, auto: seq<ModelName>) {
    && (forall m :: m in reg.models ==> m in r.models && r.models[m] == reg.models[m])
    && (forall m :: m in reg.raw ==> m in r.raw && r.raw[m] == reg.raw[m])
    && (forall m :: m in auto ==> m in scope && m in r.models && m in r.raw && r.models[m] == scope[m] && r.raw[m] == [])
  }

  lemma AppendsTrans(reg: Registry, scope: map<ModelName, ModelDef>, mid: Registry, a: seq<ModelName>, r: Registry, b: seq<ModelName>)
    requires Appends(reg, scope, mid, a) && Appends(mid, scope, r, b)
    ensures Appends(reg, scope, r, a + b)
  {
    DistinctConcat(a, b);
    assert ToSet(a + b) == ToSet(a) + ToSet(b);
    assert reg.order + (a + b) == reg.order + a + b;
  }

  lemma KeepsTrans(reg: Registry, scope: map<ModelName, ModelDef>, mid: Registry, a: seq<ModelName>, r: Registry, b: seq<ModelName>)
    requires Keeps(reg, scope, mid, a) && Keeps(mid, scope, r, b)
    requires forall m :: m in a ==> m in mid.models && m in mid.raw
    ensures Keeps(reg, scope, r, a + b)
  {
    assert forall m :: m in a + b <==> m in a || m in b;
  }

  lemma RegistersTrans(reg: Registry, scope: map<ModelName, ModelDef>, mid: Registry, a: seq<ModelName>, r: Registry, b: seq<ModelName>)
    requires Registers(reg, scope, mid, a) && Registers(mid, scope, r, b)
    ensures Registers(reg, scope, r, a + b)
  {
    AppendsTrans(reg, scope, mid, a, r, b);
    KeepsTrans(reg, scope, mid, a, r, b);
  }

  /** A field belongs to the scan exactly when its model is in the order and
      declares it. */
  lemma {:induction false} ItemsMembership(order: seq<ModelName>, models: map<ModelName, ModelDef>, it: Item)
    requires forall m :: m in order ==> m in models
    ensures it in Items(order, models) <==> it.model in order && it.decl in models[it.model].decls
    decreases |order|
  {
    if |order| > 0 {
      ItemsMembership(order[1..], models, it);
      var here := ItemsOf(order[0], models[order[0]].decls);
      assert it in here <==> it.model == order[0] && it.decl in models[order[0]].decls by {
        if it.decl in models[order[0]].decls && it.model == order[0] {
          var i :| 0 <= i < |models[order[0]].decls| && models[order[0]].decls[i] == it.decl;
          assert here[i] == it;
        }
      }
      assert forall m :: m in order <==> m == order[0] || m in order[1..];
    }
  }

  /** The models one pass finds are fresh, distinct names from the scope, each read
      by a scanned field, and registering them grows the registry by exactly them. */
  lemma RoundRegisters(reg: Registry, scope: map<ModelName, ModelDef>)
    requires Valid(reg) && ValidScope(scope) && Round(reg, scope).Ok?
    ensures var found := Round(reg, scope).value.1;
      && (forall m :: m in found ==> m in scope)
      && (forall j :: 0 <= j < |found| ==> ReadBy(Items(reg.order, reg.models), found[j]))
      && Registers(reg, scope, RegisterAll(reg, scope, found), found)
  {
    var found := Round(reg, scope).value.1;
    ScanFound(Items(reg.order, reg.models), reg.models.Keys, scope.Keys, FieldGraph([], map[]), []);
    RegisterAllValid(reg, scope, found);
    RegisterAllAppends(reg, scope, found);
    RegisterAllContents(reg, scope, found);
  }

  /** One pass that finds something: the fixed point continues from the registry
      grown by what it found, and the found models come first in the result. */
  lemma BuildStep(reg: Registry, scope: map<ModelName, ModelDef>)
    requires Valid(reg) && ValidScope(scope)
    requires BuildFieldDependencies(reg, scope).Ok?
    requires Round(reg, scope).Ok? && |Round(reg, scope).value.1| > 0
    ensures var found := Round(reg, scope).value.1;
      && (forall m :: m in found ==> m in scope)
      && (forall j :: 0 <= j < |found| ==> ReadBy(Items(reg.order, reg.models), found[j]))
      && Registers(reg, scope, RegisterAll(reg, scope, found), found)
      && found[0] in scope.Keys - reg.models.Keys && found[0] in RegisterAll(reg, scope, found).models
      && BuildFieldDependencies(RegisterAll(reg, scope, found), scope).Ok?
      && var rest := BuildFieldDependencies(RegisterAll(reg, scope, found), scope).value;
        BuildFieldDependencies(reg, scope).value == (rest.0, rest.1, found + rest.2)
  {
    var found := Round(reg, scope).value.1;
    RoundRegisters(reg, scope);
    var next := RegisterAll(reg, scope, found);
    assert found[0] in ToSet(found);
  }

  /** What the fixed point of lines 114-151, `BuildFieldDependencies`, returns:
      the registry extended by the models it registered, and a graph that one more
      pass over that registry rebuilds without finding anything new. */
  lemma {:induction false} ClosureRegisters(reg: Registry, scope: map<ModelName, ModelDef>)
    requires Valid(reg) && ValidScope(scope)
    requires BuildFieldDependencies(reg, scope).Ok?
    ensures var res := BuildFieldDependencies(reg, scope).value;
      Registers(reg, scope, res.0, res.2) && Round(res.0, scope) == Ok((res.1, []))
    decreases scope.Keys - reg.models.Keys
  {
    var round := Round(reg, scope).value;
    var found := round.1;
    if |found| == 0 {
      assert round == (round.0, []);
    } else {
      BuildStep(reg, scope);
      var next := RegisterAll(reg, scope, found);
      ClosureRegisters(next, scope);
      var rest := BuildFieldDependencies(next, scope).value;
      RegistersTrans(reg, scope, next, found, rest.0, rest.2);
    }
  }

  /** A model is read by a field of a model in `earlier`, as declared in `r`. */
  predicate ReadFrom(r: Registry, earlier: set<ModelName>, t: ModelName) {
    exists m, decl :: m in earlier && m in r.models && decl in r.models[m].decls && Referenced(decl) == Some(t)
  }

  /** Registration only follows references: every model the fixed point registers
      is read by a field of a model that was registered before it. A model no chain
      of references reaches stays unregistered. */
  lemma {:induction false} ClosureMinimal(reg: Registry, scope: map<ModelName, ModelDef>)
    requires Valid(reg) && ValidScope(scope)
    requires BuildFieldDependencies(reg, scope).Ok?
    ensures var res := BuildFieldDependencies(reg, scope).value;
      forall k :: 0 <= k < |res.2| ==> ReadFrom(res.0, reg.models.Keys + ToSet(res.2[..k]), res.2[k])
    decreases scope.Keys - reg.models.Keys
  {
    var found := Round(reg, scope).value.1;
    if |found| > 0 {
      BuildStep(reg, scope);
      var next := RegisterAll(reg, scope, found);
      var rest := BuildFieldDependencies(next, scope).value;
      assert forall m :: m in reg.models ==> m in rest.0.models && rest.0.models[m] == reg.models[m] by {
        ClosureRegisters(reg, scope);
      }
      ClosureMinimal(next, scope);
      MinimalStep(reg, next, found, rest.0, rest.2);
    }
  }

  /** The models of one pass followed by those of the later passes, each read by a
      model registered before it. */
  lemma MinimalStep(reg: Registry, next: Registry, found: seq<ModelName>, r: Registry, later: seq<ModelName>)
    requires Valid(reg)
    requires forall j :: 0 <= j < |found| ==> ReadBy(Items(reg.order, reg.models), found[j])
    requires forall m :: m in reg.models ==> m in r.models && r.models[m] == reg.models[m]
    requires next.models.Keys == reg.models.Keys + ToSet(found)
    requires forall j :: 0 <= j < |later| ==> ReadFrom(r, next.models.Keys + ToSet(later[..j]), later[j])
    ensures forall k :: 0 <= k < |found + later| ==> ReadFrom(r, reg.models.Keys + ToSet((found + later)[..k]), (found + later)[k])
  {
    forall k | 0 <= k < |found + later|
      ensures ReadFrom(r, reg.models.Keys + ToSet((found + later)[..k]), (found + later)[k])
    {
      if k < |found| {
        MinimalFirstRound(reg, found, r, later, k);
      } else {
        MinimalLaterRound(reg, next, found, r, later, k);
      }
    }
  }

  /** The models of the first pass are read by fields of the models it scanned. */
  lemma MinimalFirstRound(reg: Registry, found: seq<ModelName>, r: Registry, later: seq<ModelName>, k: nat)
    requires Valid(reg) && k < |found|
    requires forall j :: 0 <= j < |found| ==> ReadBy(Items(reg.order, reg.models), found[j])
    requires forall m :: m in reg.models ==> m in r.models && r.models[m] == reg.models[m]
    ensures ReadFrom(r, reg.models.Keys + ToSet((found + later)[..k]), (found + later)[k])
  {
    assert ReadBy(Items(reg.order, reg.models), found[k]);
    var it :| it in Items(reg.order, reg.models) && Referenced(it.decl) == Some(found[k]);
    ItemsMembership(reg.order, reg.models, it);
    assert (found + later)[k] == found[k];
    assert it.model in reg.models.Keys + ToSet((found + later)[..k]);
    assert it.decl in r.models[it.model].decls;
  }

  /** The models of later passes are read by a field of a model registered before
      them, which the first pass's models only add to. */
  lemma MinimalLaterRound(reg: Registry, next: Registry, found: seq<ModelName>, r: Registry, later: seq<ModelName>, k: nat)
    requires |found| <= k < |found| + |later|
    requires next.models.Keys == reg.models.Keys + ToSet(found)
    requires forall j :: 0 <= j < |later| ==> ReadFrom(r, next.models.Keys + ToSet(later[..j]), later[j])
    ensures ReadFrom(r, reg.models.Keys + ToSet((found + later)[..k]), (found + later)[k])
  {
    var j := k - |found|;
    assert (found + later)[k] == later[j];
    PrefixOfConcat(found, later, k);
    assert ReadFrom(r, next.models.Keys + ToSet(later[..j]), later[j]);
    var m, decl :| m in next.models.Keys + ToSet(later[..j]) && m in r.models && decl in r.models[m].decls && Referenced(decl) == Some(later[j]);
    assert m in reg.models.Keys + ToSet((found + later)[..k]);
  }

  /** Node keys of a concatenation of scans. */
  lemma {:induction false} NodeKeysConcat(a: seq<Item>, b: seq<Item>)
    ensures NodeKeys(a + b) == NodeKeys(a) + NodeKeys(b)
    decreases |a|
  {
    if |a| > 0 {
      assert (a + b)[1..] == a[1..] + b;
      NodeKeysConcat(a[1..], b);
    } else {
      assert a + b == b;
    }
  }

  /** The nodes of one model's fields are distinct when its field names are. */
  lemma {:induction false} NodeKeysOfModelDistinct(m: ModelName, decls: seq<FieldDecl>)
    requires forall i, j :: 0 <= i < j < |decls| ==> decls[i].name != decls[j].name
    ensures Distinct(NodeKeys(ItemsOf(m, decls)))
    ensures forall n :: n in NodeKeys(ItemsOf(m, decls)) ==> n.model == m
    decreases |decls|
  {
    var items := ItemsOf(m, decls);
    if |decls| > 0 {
      assert items[1..] == ItemsOf(m, decls[1..]);
      NodeKeysOfModelDistinct(m, decls[1..]);
      var rest := NodeKeys(items[1..]);
      forall n | n in rest ensures n != NodeOf(items[0]) {
        var it :| it in items[1..] && IsNode(it) && NodeOf(it) == n;
        var i :| 0 <= i < |items[1..]| && items[1..][i] == it;
        assert it.decl == decls[i + 1];
      }
      assert NodeKeys(items) == (if IsNode(items[0]) then [NodeOf(items[0])] else []) + rest;
      DistinctConcat(if IsNode(items[0]) then [NodeOf(items[0])] else [], rest);
    }
  }

  /** In a valid registry every field node is listed once. */
  lemma {:induction false} NodeKeysDistinct(order: seq<ModelName>, models: map<ModelName, ModelDef>)
    requires Distinct(order)
    requires forall m :: m in order ==> m in models && WellFormedDef(models[m])
    ensures Distinct(NodeKeys(Items(order, models)))
    ensures forall n :: n in NodeKeys(Items(order, models)) ==> n.model in order
    decreases |order|
  {
    if |order| > 0 {
      var m := order[0];
      var here := ItemsOf(m, models[m].decls);
      NodeKeysOfModelDistinct(m, models[m].decls);
      assert forall x :: x in order[1..] ==> x in order && x != m;
      NodeKeysDistinct(order[1..], models);
      NodeKeysConcat(here, Items(order[1..], models));
      DistinctConcat(NodeKeys(here), NodeKeys(Items(order[1..], models)));
    }
  }

  /** The last pass's graph has a node for each annotated field of the registered
      models, in order, each holding that field's entry. */
  lemma FinalGraphEntries(r: Registry, scope: map<ModelName, ModelDef>, g: FieldGraph)
    requires Valid(r) && Round(r, scope) == Ok((g, []))
    ensures Distinct(g.keys) && g.keys == NodeKeys(Items(r.order, r.models))
    ensures g.deps.Keys == ToSet(NodeKeys(Items(r.order, r.models)))
    ensures forall it :: it in Items(r.order, r.models) && IsNode(it) ==>
      NodeOf(it) in g.deps && FieldEntry(it.decl) == Ok(Some(g.deps[NodeOf(it)]))
  {
    NodeKeysDistinct(r.order, r.models);
    ScanGraph(Items(r.order, r.models), r.models.Keys, scope.Keys, FieldGraph([], map[]), []);
  }

  /** The graph the fixed point ends with lists each node of the registered
      models once, in registration and declaration order. */
  lemma FinalGraphNodes(r: Registry, scope: map<ModelName, ModelDef>, g: FieldGraph)
    requires Valid(r) && Round(r, scope) == Ok((g, []))
    ensures WellFormed(g)
    ensures g.keys == NodeKeys(Items(r.order, r.models))
    ensures forall m, decl :: m in r.models && decl in r.models[m].decls && decl.annotation.Metadata? ==>
      Node(m, decl.name) in g.deps && FieldEntry(decl) == Ok(Some(g.deps[Node(m, decl.name)]))
  {
    FinalGraphEntries(r, scope, g);
    forall m, decl | m in r.models && decl in r.models[m].decls && decl.annotation.Metadata?
      ensures Node(m, decl.name) in g.deps && FieldEntry(decl) == Ok(Some(g.deps[Node(m, decl.name)]))
    {
      ItemsMembership(r.order, r.models, Item(m, decl));
      assert IsNode(Item(m, decl)) && NodeOf(Item(m, decl)) == Node(m, decl.name);
    }
  }

  /** Every node of the final graph is an annotated, declared field of a
      registered model; a field without metadata is no node. */
  lemma FinalGraphFields(r: Registry, scope: map<ModelName, ModelDef>, g: FieldGraph)
    requires Valid(r) && Round(r, scope) == Ok((g, []))
    ensures forall n :: n in g.deps ==> n.model in r.models && HasField(r.models[n.model], n.field)
    ensures forall m, decl :: m in r.models && decl in r.models[m].decls && decl.annotation.Bare? ==>
      Node(m, decl.name) !in g.deps
  {
    FinalGraphEntries(r, scope, g);
    NodesAreFields(r, g.deps.Keys);
  }

  /** The final graph names no empty field: its nodes are declared fields. */
  lemma FinalGraphNamed(r: Registry, scope: map<ModelName, ModelDef>, g: FieldGraph)
    requires Valid(r) && Round(r, scope) == Ok((g, []))
    ensures forall n :: n in g.deps ==> n.field != ""
  {
    FinalGraphFields(r, scope, g);
    forall n | n in g.deps
      ensures n.field != ""
    {
      var d := r.models[n.model];
      var i :| 0 <= i < |FieldNames(d)| && FieldNames(d)[i] == n.field;
      assert d.decls[i].name == n.field;
    }
  }

  /** The nodes of the registered models' items are their annotated fields. */
  lemma NodesAreFields(r: Registry, nodes: set<Node>)
    requires Valid(r) && nodes == ToSet(NodeKeys(Items(r.order, r.models)))
    ensures forall n :: n in nodes ==> n.model in r.models && HasField(r.models[n.model], n.field)
    ensures forall m, decl :: m in r.models && decl in r.models[m].decls && decl.annotation.Bare? ==>
      Node(m, decl.name) !in nodes
  {
    var items := Items(r.order, r.models);
    forall n | n in nodes
      ensures n.model in r.models && HasField(r.models[n.model], n.field)
    {
      var it :| it in items && IsNode(it) && NodeOf(it) == n;
      ItemsMembership(r.order, r.models, it);
      var i :| 0 <= i < |r.models[n.model].decls| && r.models[n.model].decls[i] == it.decl;
      assert FieldNames(r.models[n.model])[i] == n.field;
    }
    forall m, decl | m in r.models && decl in r.models[m].decls && decl.annotation.Bare?
      ensures Node(m, decl.name) !in nodes
    {
      if Node(m, decl.name) in nodes {
        var it :| it in items && IsNode(it) && NodeOf(it) == Node(m, decl.name);
        ItemsMembership(r.order, r.models, it);
        SameName(r.models[m], decl, it.decl);
      }
    }
  }

  /** Two declarations of a dataclass with the same name are the same declaration. */
  lemma SameName(d: ModelDef, a: FieldDecl, b: FieldDecl)
    requires WellFormedDef(d) && a in d.decls && b in d.decls && a.name == b.name
    ensures a == b
  {
    var i :| 0 <= i < |d.decls| && d.decls[i] == a;
    var j :| 0 <= j < |d.decls| && d.decls[j] == b;
    assert i == j;
  }

  /** At the fixed point every model a registered field reads is registered. */
  lemma FinalGraphClosed(r: Registry, scope: map<ModelName, ModelDef>, g: FieldGraph)
    requires Valid(r) && Round(r, scope) == Ok((g, []))
    ensures forall m, decl :: m in r.models && decl in r.models[m].decls && Referenced(decl).Some? ==>
      Referenced(decl).value in r.models
  {
    var items := Items(r.order, r.models);
    ScanFound(items, r.models.Keys, scope.Keys, FieldGraph([], map[]), []);
    forall m, decl | m in r.models && decl in r.models[m].decls && Referenced(decl).Some?
      ensures Referenced(decl).value in r.models
    {
      ItemsMembership(r.order, r.models, Item(m, decl));
    }
  }

  /** The models whose fields a set of nodes names. */
  function ModelsOf(s: set<Node>): (r: set<ModelName>)
    ensures forall t :: t in r <==> exists n :: n in s && n.model == t
  {
    set n | n in s :: n.model
  }

  /** Lines 158-164: for each node in key order, its model's entry gains the
      models of the node's dependencies (an entry is created on first sight). */
  function CollectModelDeps(keys: seq<Node>, deps: map<Node, set<Node>>, md: map<ModelName, set<ModelName>>): map<ModelName, set<ModelName>>
    requires forall n :: n in keys ==> n in deps
    decreases |keys|
  {
    if |keys| == 0 then md
    else
      var k := keys[0];
      var current := if k.model in md then md[k.model] else {};
      CollectModelDeps(keys[1..], deps, md[k.model := current + ModelsOf(deps[k])])
  }

  /** `_model_dependencies` after `_build_model_dependencies`: the models
      registered along the way start with an empty entry (line 150), then the
      field graph is folded in. */
  function ModelDependencies(g: FieldGraph, auto: seq<ModelName>): map<ModelName, set<ModelName>>
    requires WellFormed(g)
  {
    CollectModelDeps(g.keys, g.deps, map m | m in auto :: {})
  }

  /** `t` is a model some node of model `m` among `keys` depends on. */
  predicate ModelEdge(keys: seq<Node>, deps: map<Node, set<Node>>, m: ModelName, t: ModelName)
    requires forall n :: n in keys ==> n in deps
  {
    exists n :: n in keys && n.model == m && t in ModelsOf(deps[n])
  }

  /** The fold of lines 158-164 in closed form. */
  lemma {:induction false} CollectModelDepsSpec(keys: seq<Node>, deps: map<Node, set<Node>>, md: map<ModelName, set<ModelName>>)
    requires forall n :: n in keys ==> n in deps
    ensures forall m :: m in CollectModelDeps(keys, deps, md) <==> m in md || exists n :: n in keys && n.model == m
    ensures forall m, t :: m in CollectModelDeps(keys, deps, md) ==>
      (t in CollectModelDeps(keys, deps, md)[m] <==> (m in md && t in md[m]) || ModelEdge(keys, deps, m, t))
    decreases |keys|
  {
    if |keys| > 0 {
      var k := keys[0];
      var current := if k.model in md then md[k.model] else {};
      var md1 := md[k.model := current + ModelsOf(deps[k])];
      CollectModelDepsSpec(keys[1..], deps, md1);
      assert forall n :: n in keys <==> n == k || n in keys[1..];
      var r := CollectModelDeps(keys, deps, md);
      forall m, t | m in r
        ensures t in r[m] <==> (m in md && t in md[m]) || ModelEdge(keys, deps, m, t)
      {
        if ModelEdge(keys, deps, m, t) && !ModelEdge(keys[1..], deps, m, t) {
          var n :| n in keys && n.model == m && t in ModelsOf(deps[n]);
          assert n == k;
        }
        if ModelEdge(keys[1..], deps, m, t) {
          var n :| n in keys[1..] && n.model == m && t in ModelsOf(deps[n]);
          assert n in keys;
        }
      }
    }
  }

  /** `_model_dependencies[m]` is exactly the set of models whose fields some field
      of `m` reads; it has an entry for every model with a node and every model
      registered along the way. */
  lemma ModelDependenciesSpec(g: FieldGraph, auto: seq<ModelName>)
    requires WellFormed(g)
    ensures forall m :: m in ModelDependencies(g, auto) <==> m in auto || exists n :: n in g.deps && n.model == m
    ensures forall m, t :: m in ModelDependencies(g, auto) ==>
      (t in ModelDependencies(g, auto)[m] <==> exists n, d :: n in g.deps && n.model == m && d in g.deps[n] && d.model == t)
  {
    var md0: map<ModelName, set<ModelName>> := map m | m in auto :: {};
    CollectModelDepsSpec(g.keys, g.deps, md0);
    var r := ModelDependencies(g, auto);
    forall m, t | m in r
      ensures t in r[m] <==> exists n, d :: n in g.deps && n.model == m && d in g.deps[n] && d.model == t
    {
      if t in r[m] {
        assert ModelEdge(g.keys, g.deps, m, t);
        var n :| n in g.keys && n.model == m && t in ModelsOf(g.deps[n]);
        var d :| d in g.deps[n] && d.model == t;
      }
      if exists n, d :: n in g.deps && n.model == m && d in g.deps[n] && d.model == t {
        var n, d :| n in g.deps && n.model == m && d in g.deps[n] && d.model == t;
        assert t in ModelsOf(g.deps[n]);
        assert ModelEdge(g.keys, g.deps, m, t);
      }
    }
  }
}
