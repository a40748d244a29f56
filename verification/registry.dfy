/** The model registry of `FakeSchemaGenerator`: `_models` (with its annotations and
    interfaces, all keyed by model name) and the finalized rows `_raw_data`.
    `_register` is FakeSchemaGenerator.py:194-200. */
module Registry {
  import opened Wrappers
  import opened Seqs
  import opened Schema

  /** `order` is the insertion order of `_models`; `raw` is `_raw_data`. */
  datatype Registry = Registry(order: seq<ModelName>, models: map<ModelName, ModelDef>, raw: map<ModelName, seq<Fields>>)

  /** The state `_register` maintains: each model listed once, under its own name,
      with a row store; every definition is a dataclass (distinct, non-empty field
      names). */
  predicate Valid(reg: Registry) {
    && Distinct(reg.order)
    && (forall m :: m in reg.order ==> m in reg.models)
    && (forall m :: m in reg.models ==> m in reg.order)
    && reg.raw.Keys == reg.models.Keys
    && (forall m :: m in reg.models ==> reg.models[m].name == m && WellFormedDef(reg.models[m]))
  }

  /** The dataclasses a name can be resolved to outside the registry (the module
      globals `_model_str_to_model` searches), keyed by their own names. */
  predicate ValidScope(scope: map<ModelName, ModelDef>) {
    forall m :: m in scope ==> scope[m].name == m && WellFormedDef(scope[m])
  }

  function Empty(): (reg: Registry)
    ensures Valid(reg) && reg.models == map[]
  {
    Registry([], map[], map[])
  }

  /** `_register(model)`: a new model is appended with an empty row store; a name
      already registered leaves everything as it was. */
  function Register(reg: Registry, d: ModelDef): (r: Registry)
    ensures d.name in reg.models ==> r == reg
    ensures d.name !in reg.models ==>
      && r.order == reg.order + [d.name]
      && r.models == reg.models[d.name := d]
      && r.raw == reg.raw[d.name := []]
  {
    if d.name in reg.models then reg
    else Registry(reg.order + [d.name], reg.models[d.name := d], reg.raw[d.name := []])
  }

  /** Registration keeps the registry valid, never drops or alters an existing
      model or its rows, and is idempotent. */
  lemma RegisterProperties(reg: Registry, d: ModelDef)
    requires Valid(reg) && WellFormedDef(d)
    ensures Valid(Register(reg, d))
    ensures d.name in Register(reg, d).models
    ensures forall m :: m in reg.models ==>
      m in Register(reg, d).models && Register(reg, d).models[m] == reg.models[m]
      && Register(reg, d).raw[m] == reg.raw[m]
    ensures Register(Register(reg, d), d) == Register(reg, d)
  {
    if d.name !in reg.models {
      DistinctConcat(reg.order, [d.name]);
    }
  }

  /** `_model_str_to_model`: a registered name resolves to its registered model;
      otherwise the name is looked up among the visible dataclasses; otherwise it
      is unknown. */
  function Resolve(reg: Registry, scope: map<ModelName, ModelDef>, name: ModelName): (r: Outcome<ModelDef>)
    ensures r.Ok? <==> name in reg.models || name in scope
    ensures name in reg.models ==> r == Ok(reg.models[name])
    ensures name !in reg.models && name in scope ==> r == Ok(scope[name])
    ensures r.Err? ==> r.error == UnknownModel(name)
  {
    if name in reg.models then Ok(reg.models[name])
    else if name in scope then Ok(scope[name])
    else Err(UnknownModel(name))
  }

  /** A name resolves to a dataclass of that very name. Registering what it
      resolves to (lines 148-149 and 286 do) makes the name registered and changes
      the resolution of no name, so whether a model was registered earlier or
      resolved now makes no difference to later lookups. */
  lemma ResolveRegister(reg: Registry, scope: map<ModelName, ModelDef>, name: ModelName)
    requires Valid(reg) && ValidScope(scope)
    requires Resolve(reg, scope, name).Ok?
    ensures var d := Resolve(reg, scope, name).value;
      && d.name == name && WellFormedDef(d)
      && name in Register(reg, d).models
      && forall m :: Resolve(Register(reg, d), scope, m) == Resolve(reg, scope, m)
  {
  }

  /** Registers, in order, the named dataclasses (lines 148-149). */
  function RegisterAll(reg: Registry, scope: map<ModelName, ModelDef>, names: seq<ModelName>): (r: Registry)
    requires forall m :: m in names ==> m in scope
    decreases |names|
  {
    if |names| == 0 then reg
    else RegisterAll(Register(reg, scope[names[0]]), scope, names[1..])
  }

  /** Registering fresh, distinct names from the scope appends them to the order
      and adds exactly them to the models and the row stores. */
  lemma {:induction false} RegisterAllAppends(reg: Registry, scope: map<ModelName, ModelDef>, names: seq<ModelName>)
    requires ValidScope(scope) && Distinct(names) && reg.raw.Keys == reg.models.Keys
    requires forall m :: m in names ==> m in scope && m !in reg.models
    ensures RegisterAll(reg, scope, names).order == reg.order + names
    ensures RegisterAll(reg, scope, names).models.Keys == reg.models.Keys + ToSet(names)
    ensures RegisterAll(reg, scope, names).raw.Keys == reg.models.Keys + ToSet(names)
    decreases |names|
  {
    if |names| > 0 {
      var d := scope[names[0]];
      assert d.name == names[0];
      var r1 := Register(reg, d);
      assert r1.models.Keys == reg.models.Keys + {names[0]};
      assert forall m :: m in names[1..] ==> m in scope && m !in r1.models by {
        assert forall m :: m in names[1..] ==> m != names[0];
      }
      RegisterAllAppends(r1, scope, names[1..]);
      ConsAppend(reg.order, names);
      assert ToSet(names) == {names[0]} + ToSet(names[1..]);
    }
  }

  /** Registering fresh, distinct names from the scope keeps the registry valid. */
  lemma RegisterAllValid(reg: Registry, scope: map<ModelName, ModelDef>, names: seq<ModelName>)
    requires Valid(reg) && ValidScope(scope) && Distinct(names)
    requires forall m :: m in names ==> m in scope && m !in reg.models
    ensures Valid(RegisterAll(reg, scope, names))
  {
    RegisterAllAppends(reg, scope, names);
    RegisterAllContents(reg, scope, names);
    DistinctConcat(reg.order, names);
  }

  /** Registering fresh names keeps every existing model and its rows, and gives
      each new name its dataclass from the scope and no rows. */
  lemma {:induction false} RegisterAllContents(reg: Registry, scope: map<ModelName, ModelDef>, names: seq<ModelName>)
    requires ValidScope(scope) && Distinct(names) && reg.raw.Keys == reg.models.Keys
    requires forall m :: m in names ==> m in scope && m !in reg.models
    ensures forall m :: m in reg.models ==>
      m in RegisterAll(reg, scope, names).models && RegisterAll(reg, scope, names).models[m] == reg.models[m]
      && m in RegisterAll(reg, scope, names).raw && RegisterAll(reg, scope, names).raw[m] == reg.raw[m]
    ensures forall m :: m in names ==>
      m in RegisterAll(reg, scope, names).models && RegisterAll(reg, scope, names).models[m] == scope[m]
      && m in RegisterAll(reg, scope, names).raw && RegisterAll(reg, scope, names).raw[m] == []
    decreases |names|
  {
    if |names| > 0 {
      var d := scope[names[0]];
      var r1 := Register(reg, d);
      assert forall m :: m in names[1..] ==> m in scope && m !in r1.models by {
        assert forall m :: m in names[1..] ==> m != names[0];
      }
      RegisterAllContents(r1, scope, names[1..]);
      assert names[0] !in names[1..];
    }
  }

  /** Appending a non-empty sequence is appending its head, then its tail. */
  lemma ConsAppend<T>(a: seq<T>, b: seq<T>)
    requires |b| > 0
    ensures a + b == a + [b[0]] + b[1..]
  {
    assert b == [b[0]] + b[1..];
  }
}
