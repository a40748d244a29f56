/** The data model of the generator: values, directives (`FakeType`), conditions
    (`SchemaCondition`), field annotations, model definitions, field nodes and the
    errors the engine can raise. */
module Schema {
  import opened Wrappers

  type ModelName = string
  type FieldName = string

  /** A generated value. `Null` is Python's `None` (the unset field of a scratch
      record); `Record` is a finalized model instance, which only matters because
      `calculate` compares whole rows with its join value. Floats are not modelled. */
  datatype Value =
    | Null
    | Int(i: int)
    | Str(s: string)
    | Record(model: ModelName, fields: map<FieldName, Value>)

  /** A row or scratch record: the value of each declared field. */
  type Fields = map<FieldName, Value>

  /** A directive operand: a literal, or `ValueOf(field)` naming a field of a record. */
  datatype Operand = Lit(v: Value) | ValueOf(field: FieldName)

  /** The comparison callable of a `SchemaCondition`. */
  datatype Comparison = Eq | Ne | Lt | Le | Gt | Ge

  /** `SchemaCondition(field, comparison, value)`: `field` is read on the source
      record, `value` is a literal or a field of the candidate row. */
  datatype Condition = Condition(field: FieldName, comparison: Comparison, value: Operand)

  /** The `row_op` / `col_op` callables of `calculate`: the default `noop`, or the
      `typed_sum` / `typed_product` operators; other callables are not modelled. */
  datatype Operator = Noop | TypedSum | TypedProduct

  /** The keyword arguments of a `FakeType` that the core reads. An absent keyword is
      `None`; `row_op` and `col_op` default to `noop` as in `calculate`'s signature. */
  datatype Args = Args(
    model: Option<ModelName>,
    field: Option<FieldName>,
    fields: Option<seq<FieldName>>,
    value: Option<Operand>,
    conditions: Option<seq<Condition>>,
    rowOp: Operator,
    colOp: Operator,
    namespace: Option<string>)

  /** `FakeType(type, **kwargs)`. */
  datatype Directive = Directive(kind: string, args: Args)

  /** The annotation of a dataclass field: no `Annotated` metadata at all, or
      metadata whose first `FakeType` (if any) is `directive`. */
  datatype Annotation = Bare | Metadata(directive: Option<Directive>)

  datatype FieldDecl = FieldDecl(name: FieldName, annotation: Annotation)

  /** A model (dataclass) definition: its name and its fields in declaration order. */
  datatype ModelDef = ModelDef(name: ModelName, decls: seq<FieldDecl>)

  /** A node of the field graph: `(model name, field name)`. */
  datatype Node = Node(model: ModelName, field: FieldName)

  /** The directive kinds whose providers receive the source record and read other
      models' data (`CalculateProvider.reference_functions` and
      `ReferenceProvider.reference_functions`). */
  const GraphClosing: set<string> := {"reference", "calculate"}

  datatype Error =
    | UnknownModel(name: ModelName)
    | UnknownField(model: ModelName, field: FieldName)
    | MissingArgument(name: string)
    | MissingNode(node: Node)
    | CyclicDependency
    | InvalidArguments
    | NoDataAvailable(model: ModelName)
    | NoMatchingRow(model: ModelName)
    | MissingEntry(model: ModelName)
    | MissingAttribute(field: FieldName)
    | UnsupportedType

  type Outcome<T> = Result<T, Error>

  /** The names of a sequence of field declarations, in order. */
  function Names(decls: seq<FieldDecl>): (names: seq<FieldName>)
    ensures |names| == |decls|
    ensures forall i :: 0 <= i < |decls| ==> names[i] == decls[i].name
  {
    if |decls| == 0 then [] else [decls[0].name] + Names(decls[1..])
  }

  /** The declared field names of a model, in order. */
  function FieldNames(d: ModelDef): seq<FieldName> {
    Names(d.decls)
  }

  /** `_has_field`: the model declares a field of that name. */
  predicate HasField(d: ModelDef, f: FieldName) {
    f in FieldNames(d)
  }

  /** `_has_field` holds exactly for the names of the declared fields. */
  lemma HasFieldDeclared(d: ModelDef, f: FieldName)
    ensures HasField(d, f) <==> exists decl :: decl in d.decls && decl.name == f
  {
    if HasField(d, f) {
      var i :| 0 <= i < |FieldNames(d)| && FieldNames(d)[i] == f;
      assert d.decls[i] in d.decls;
    }
    if decl :| decl in d.decls && decl.name == f {
      var i :| 0 <= i < |d.decls| && d.decls[i] == decl;
      assert FieldNames(d)[i] == f;
    }
  }

  /** Dataclass field names are distinct, non-empty Python identifiers. */
  predicate WellFormedDef(d: ModelDef) {
    && (forall i :: 0 <= i < |d.decls| ==> d.decls[i].name != "")
    && (forall i, j :: 0 <= i < j < |d.decls| ==> d.decls[i].name != d.decls[j].name)
  }

  /** `getattr(record, f)`: fails when the record has no such attribute. */
  function GetAttr(r: Fields, f: FieldName): (v: Outcome<Value>)
    ensures v.Ok? <==> f in r
    ensures v.Ok? ==> v.value == r[f]
  {
    if f in r then Ok(r[f]) else Err(MissingAttribute(f))
  }

  /** A fresh scratch record (`dataclass_to_interface(model)()`): every declared
      field present and `Null`. */
  function NewScratch(d: ModelDef): (r: Fields)
    ensures r.Keys == set f | f in FieldNames(d)
    ensures forall f :: f in r ==> r[f] == Null
  {
    map f | f in FieldNames(d) :: Null
  }
}
