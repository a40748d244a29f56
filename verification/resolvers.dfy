/** The two graph-closing resolvers, `calculate` (FakeSchemaGenerator.py:202-243)
    and `reference` (lines 275-319). Both read the finalized rows (`_raw_data`) and
    the scratch records of the current pass (`_instances`); the caller's record is
    the `source` they resolve `ValueOf` operands and conditions against. */
module Resolvers {
  import opened Wrappers
  import opened Seqs
  import opened Schema
  import opened Registry
  import opened Operators

  /** `_instances`: each model's list of scratch records. */
  type Instances = map<ModelName, seq<Fields>>

  /** Python's `<` on two strings: lexicographic by code point, a proper prefix
      being smaller. */
  function StrLess(a: string, b: string): bool
    decreases |a|
  {
    if |b| == 0 then false
    else if |a| == 0 then true
    else if a[0] != b[0] then a[0] < b[0]
    else StrLess(a[1..], b[1..])
  }

  /** String order is a strict total order: irreflexive, and any two different
      strings are ordered one way round. */
  lemma {:induction false} StrLessTotal(a: string, b: string)
    ensures !StrLess(a, a)
    ensures a != b ==> (StrLess(a, b) <==> !StrLess(b, a))
    decreases |a|
  {
    if |a| > 0 {
      StrLessTotal(a[1..], a[1..]);
      if |b| > 0 && a[0] == b[0] {
        StrLessTotal(a[1..], b[1..]);
        assert a == [a[0]] + a[1..] && b == [b[0]] + b[1..];
      }
    }
  }

  /** `x < y` for two values: integers by value, strings by `StrLess`; any other
      pair (`None`, a record, mixed types) raises `TypeError`. */
  function Less(x: Value, y: Value): (r: Outcome<bool>)
    ensures r.Ok? <==> (x.Int? && y.Int?) || (x.Str? && y.Str?)
    ensures r.Err? ==> r.error == UnsupportedType
    ensures x.Int? && y.Int? ==> r == Ok(x.i < y.i)
  {
    if x.Int? && y.Int? then Ok(x.i < y.i)
    else if x.Str? && y.Str? then Ok(StrLess(x.s, y.s))
    else Err(UnsupportedType)
  }

  /** `cond.comparison(x, y)` for the `operator` module's comparisons: equality
      compares any two values; an ordering compares two integers or two strings
      and raises `TypeError` for anything else. */
  function Compare(c: Comparison, x: Value, y: Value): (r: Outcome<bool>)
    ensures c == Eq ==> r == Ok(x == y)
    ensures c == Ne ==> r == Ok(x != y)
    ensures c != Eq && c != Ne ==> (r.Ok? <==> (x.Int? && y.Int?) || (x.Str? && y.Str?))
    ensures r.Err? ==> r.error == UnsupportedType
    ensures x.Int? && y.Int? ==>
      && (c == Lt ==> r == Ok(x.i < y.i)) && (c == Le ==> r == Ok(x.i <= y.i))
      && (c == Gt ==> r == Ok(x.i > y.i)) && (c == Ge ==> r == Ok(x.i >= y.i))
  {
    match c
    case Eq => Ok(x == y)
    case Ne => Ok(x != y)
    case Lt => Less(x, y)
    case Gt => Less(y, x)
    case Le => var b :- Less(y, x); Ok(!b)
    case Ge => var b :- Less(x, y); Ok(!b)
  }

  /** On strings the orderings agree with Python's: `<=` holds exactly when the
      strings are equal or the first is smaller, and `<` and `>` never both hold. */
  lemma CompareStr(x: string, y: string)
    ensures Compare(Le, Str(x), Str(y)) == Ok(x == y || StrLess(x, y))
    ensures Compare(Ge, Str(x), Str(y)) == Ok(x == y || StrLess(y, x))
    ensures !(Compare(Lt, Str(x), Str(y)) == Ok(true) && Compare(Gt, Str(x), Str(y)) == Ok(true))
  {
    StrLessTotal(x, y);
    StrLessTotal(y, x);
  }

  /** `getattr(record, f, None)`. */
  function Lookup(r: Fields, f: FieldName): (v: Value)
    ensures f in r ==> v == r[f]
    ensures f !in r ==> v == Null
  {
    if f in r then r[f] else Null
  }

  /** An operand read against `row`: `getattr(row, o.field)` for a `ValueOf`,
      the literal otherwise. */
  function OperandValue(o: Operand, row: Fields): (r: Outcome<Value>)
    ensures o.Lit? ==> r == Ok(o.v)
    ensures o.ValueOf? ==> r == GetAttr(row, o.field)
  {
    match o
    case Lit(v) => Ok(v)
    case ValueOf(f) => GetAttr(row, f)
  }

  /** One condition of lines 301-308: the source's value of `cond.field` (or
      `None`) compared with the candidate's operand. */
  function EvalCondition(c: Condition, source: Fields, row: Fields): Outcome<bool> {
    var y :- OperandValue(c.value, row);
    Compare(c.comparison, Lookup(source, c.field), y)
  }

  /** `all([...for cond in conditions])`: the list is built first, so every
      condition is evaluated and the first failure propagates. */
  function Holds(conds: seq<Condition>, source: Fields, row: Fields): (r: Outcome<bool>)
    ensures r.Ok? <==> forall c :: c in conds ==> EvalCondition(c, source, row).Ok?
    ensures r == Ok(true) <==> forall c :: c in conds ==> EvalCondition(c, source, row) == Ok(true)
    decreases |conds|
  {
    if |conds| == 0 then Ok(true)
    else
      var b :- EvalCondition(conds[0], source, row);
      var rest :- Holds(conds[1..], source, row);
      assert forall c :: c in conds <==> c == conds[0] || c in conds[1..];
      Ok(b && rest)
  }

  /** Lines 298-313 from position `from` on: the position of the first row of
      `pool` that every condition accepts, or `None`; a condition that raises on a
      row ends the search. */
  function FirstMatch(pool: seq<Fields>, conds: seq<Condition>, source: Fields, from: nat): (r: Outcome<Option<nat>>)
    requires from <= |pool|
    ensures r.Ok? && r.value.Some? ==>
      && from <= r.value.value < |pool| && Holds(conds, source, pool[r.value.value]) == Ok(true)
      && forall j :: from <= j < r.value.value ==> Holds(conds, source, pool[j]) == Ok(false)
    ensures r.Ok? && r.value.None? ==> forall j :: from <= j < |pool| ==> Holds(conds, source, pool[j]) == Ok(false)
    ensures r.Err? ==> exists j :: Rejects(pool, conds, source, from, j) && r.error == Holds(conds, source, pool[j]).error
    decreases |pool| - from
  {
    if from == |pool| then Ok(None)
    else
      var h := Holds(conds, source, pool[from]);
      if h.Err? then
        assert Rejects(pool, conds, source, from, from);
        Err(h.error)
      else if h.value then Ok(Some(from))
      else
        RejectsShift(pool, conds, source, from);
        FirstMatch(pool, conds, source, from + 1)
  }

  /** A row rejected before the first raising row keeps that row first. */
  lemma RejectsShift(pool: seq<Fields>, conds: seq<Condition>, source: Fields, from: nat)
    requires from < |pool| && Holds(conds, source, pool[from]) == Ok(false)
    ensures forall j :: Rejects(pool, conds, source, from + 1, j) ==> Rejects(pool, conds, source, from, j)
  {
  }

  /** Row `j` is the first row from `from` on whose conditions raise, every row
      in between having been rejected. */
  predicate Rejects(pool: seq<Fields>, conds: seq<Condition>, source: Fields, from: nat, j: int) {
    && from <= j < |pool| && Holds(conds, source, pool[j]).Err?
    && forall k :: from <= k < j ==> Holds(conds, source, pool[k]) == Ok(false)
  }

  /** `reference(source_model, model, field, conditions)` (lines 275-319), with
      `random.choice` (line 315) taking the pool member at `choice` modulo the pool
      size. An unregistered model is resolved and registered by line 286, but then
      has no scratch list, so line 291 raises; the registration is therefore not
      part of any successful call. */
  function Reference(reg: Registry, scope: map<ModelName, ModelDef>, instances: Instances, source: Fields,
                     model: Option<ModelName>, field: Option<FieldName>, conditions: Option<seq<Condition>>,
                     choice: nat): (r: Outcome<Value>)
    requires Valid(reg)
  {
    if model.None? then Err(MissingArgument("model"))
    else
      var name := model.value;
      var d :- Resolve(reg, scope, name);
      if field.Some? && field.value != "" && !HasField(d, field.value) then Err(UnknownField(name, field.value))
      else if name !in instances then Err(MissingEntry(name))
      else
        var pool := Pool(reg, instances, name);
        if |pool| == 0 then Err(NoDataAvailable(name))
        else if field.None? then Err(MissingArgument("field"))
        else if conditions.Some? then
          var found :- FirstMatch(pool, conditions.value, source, 0);
          if found.None? then Err(NoMatchingRow(name))
          else GetAttr(pool[found.value], field.value)
        else GetAttr(pool[choice % |pool|], field.value)
  }

  /** Line 296: the finalized rows, then the scratch records. A model line 286 has
      just registered has no finalized rows. */
  function Pool(reg: Registry, instances: Instances, name: ModelName): seq<Fields>
    requires Valid(reg) && name in instances
  {
    (if name in reg.models then reg.raw[name] else []) + instances[name]
  }

  /** The failures of `reference` before it looks at the pool's rows: an unknown
      model, an undeclared target field, a model without scratch records, and an
      empty pool. */
  lemma ReferenceErrors(reg: Registry, scope: map<ModelName, ModelDef>, instances: Instances, source: Fields,
                        name: ModelName, field: Option<FieldName>, conditions: Option<seq<Condition>>, choice: nat)
    requires Valid(reg) && ValidScope(scope)
    ensures var r := Reference(reg, scope, instances, source, Some(name), field, conditions, choice);
      && (name !in reg.models && name !in scope ==> r == Err(UnknownModel(name)))
      && (name in reg.models && field.Some? && field.value != "" && !HasField(reg.models[name], field.value) ==>
            r == Err(UnknownField(name, field.value)))
      && (name in reg.models && (field.None? || field.value == "" || HasField(reg.models[name], field.value)) ==>
            (name !in instances ==> r == Err(MissingEntry(name)))
            && (name in instances && reg.raw[name] == [] && instances[name] == [] ==> r == Err(NoDataAvailable(name))))
  {
  }

  /** With conditions, `reference` returns the target field of the first pool row
      that satisfies them all, fails with `NoMatchingRow` when every row is
      evaluated and none does, and never depends on the random draw. */
  lemma ReferenceFirstMatch(reg: Registry, scope: map<ModelName, ModelDef>, instances: Instances, source: Fields,
                            name: ModelName, field: FieldName, conds: seq<Condition>, choice: nat)
    requires Valid(reg)
    requires name in reg.models && name in instances && HasField(reg.models[name], field)
    requires |Pool(reg, instances, name)| > 0
    ensures var r := Reference(reg, scope, instances, source, Some(name), Some(field), Some(conds), choice);
      var pool := Pool(reg, instances, name);
      && (r.Ok? ==> exists i :: (0 <= i < |pool| && Holds(conds, source, pool[i]) == Ok(true)
            && (forall j :: 0 <= j < i ==> Holds(conds, source, pool[j]) == Ok(false))
            && r == GetAttr(pool[i], field)))
      && (forall i ::
            (0 <= i < |pool| && Holds(conds, source, pool[i]) == Ok(true)
             && forall j :: 0 <= j < i ==> Holds(conds, source, pool[j]) == Ok(false))
            ==> r == GetAttr(pool[i], field))
      && ((forall j :: 0 <= j < |pool| ==> Holds(conds, source, pool[j]) == Ok(false)) ==> r == Err(NoMatchingRow(name)))
      && (forall other: nat :: r == Reference(reg, scope, instances, source, Some(name), Some(field), Some(conds), other))
  {
    var pool := Pool(reg, instances, name);
    forall i | 0 <= i < |pool| && Holds(conds, source, pool[i]) == Ok(true)
        && (forall j :: 0 <= j < i ==> Holds(conds, source, pool[j]) == Ok(false))
      ensures FirstMatch(pool, conds, source, 0) == Ok(Some(i))
    {
      FirstMatchIsFirst(pool, conds, source, 0, i);
    }
  }

  /** The search stops at the first row every condition accepts, when all rows
      before it are rejected without raising. */
  lemma {:induction false} FirstMatchIsFirst(pool: seq<Fields>, conds: seq<Condition>, source: Fields, from: nat, i: nat)
    requires from <= i < |pool| && Holds(conds, source, pool[i]) == Ok(true)
    requires forall j :: from <= j < i ==> Holds(conds, source, pool[j]) == Ok(false)
    ensures FirstMatch(pool, conds, source, from) == Ok(Some(i))
    decreases i - from
  {
    var h := Holds(conds, source, pool[from]);
    if from < i {
      assert h == Ok(false);
      assert FirstMatch(pool, conds, source, from) == FirstMatch(pool, conds, source, from + 1);
      FirstMatchIsFirst(pool, conds, source, from + 1, i);
    } else {
      assert h == Ok(true);
    }
  }

  /** Without conditions `reference` returns the target field of the pool member
      the draw picks. */
  lemma ReferencePoolMember(reg: Registry, scope: map<ModelName, ModelDef>, instances: Instances, source: Fields,
                            name: ModelName, field: FieldName, choice: nat)
    requires Valid(reg)
    requires name in reg.models && name in instances && HasField(reg.models[name], field)
    requires |Pool(reg, instances, name)| > 0
    ensures var pool := Pool(reg, instances, name);
      Reference(reg, scope, instances, source, Some(name), Some(field), None, choice) == GetAttr(pool[choice % |pool|], field)
  {
  }

  /** Whatever the draw, `reference` without conditions answers with the target
      field of some member of the pool. */
  lemma ReferenceFromPool(reg: Registry, scope: map<ModelName, ModelDef>, instances: Instances, source: Fields,
                          name: ModelName, field: FieldName, choice: nat)
    requires Valid(reg)
    requires name in reg.models && name in instances && HasField(reg.models[name], field)
    requires |Pool(reg, instances, name)| > 0
    ensures exists row :: (row in Pool(reg, instances, name)
      && Reference(reg, scope, instances, source, Some(name), Some(field), None, choice) == GetAttr(row, field))
  {
    var pool := Pool(reg, instances, name);
    ReferencePoolMember(reg, scope, instances, source, name, field, choice);
    assert pool[choice % |pool|] in pool;
  }

  /** Every pool member is the one some draw picks. */
  lemma ReferenceReachesAll(reg: Registry, scope: map<ModelName, ModelDef>, instances: Instances, source: Fields,
                            name: ModelName, field: FieldName, i: nat)
    requires Valid(reg)
    requires name in reg.models && name in instances && HasField(reg.models[name], field)
    requires i < |Pool(reg, instances, name)|
    ensures Reference(reg, scope, instances, source, Some(name), Some(field), None, i)
         == GetAttr(Pool(reg, instances, name)[i], field)
  {
    ModSmall(i, |Pool(reg, instances, name)|);
    ReferencePoolMember(reg, scope, instances, source, name, field, i);
  }

  /** A draw below the pool size picks itself. */
  lemma ModSmall(i: nat, n: nat)
    requires i < n
    ensures i % n == i
  {
  }

  /** The arguments of `calculate` once checked: the resolved model, the join
      field, the join value and the summed fields. */
  datatype Join = Join(name: ModelName, field: FieldName, value: Value, fields: seq<FieldName>)

  /** The first entry of `fields` the model does not declare (lines 221-223). */
  function FirstUndeclared(d: ModelDef, fields: seq<FieldName>): (r: Option<FieldName>)
    ensures r.None? <==> forall i :: 0 <= i < |fields| ==> HasField(d, fields[i])
    ensures r.Some? ==> exists i :: (0 <= i < |fields| && fields[i] == r.value && !HasField(d, r.value)
      && forall j :: 0 <= j < i ==> HasField(d, fields[j]))
  {
    if |fields| == 0 then None
    else if !HasField(d, fields[0]) then
      assert fields[0] == fields[0];
      Some(fields[0])
    else
      var rest := FirstUndeclared(d, fields[1..]);
      if rest.Some? then
        var i :| 0 <= i < |fields[1..]| && fields[1..][i] == rest.value && !HasField(d, rest.value)
          && forall j :: 0 <= j < i ==> HasField(d, fields[1..][j]);
        assert fields[i + 1] == rest.value;
        rest
      else rest
  }

  /** Lines 202-225: the signature's required arguments, a non-empty `fields`,
      the model, the declared join field and summed fields, and the join value
      (read from the source record for a `ValueOf`). */
  function Prepare(reg: Registry, scope: map<ModelName, ModelDef>, source: Fields, a: Args): (r: Outcome<Join>)
    requires Valid(reg)
    ensures r.Ok? ==>
      && a.model.Some? && a.field.Some? && a.value.Some? && a.fields.Some? && |a.fields.value| > 0
      && Resolve(reg, scope, a.model.value).Ok?
      && var d := Resolve(reg, scope, a.model.value).value;
      && (a.field.value == "" || HasField(d, a.field.value))
      && (forall i :: 0 <= i < |a.fields.value| ==> HasField(d, a.fields.value[i]))
      && OperandValue(a.value.value, source).Ok?
      && r.value == Join(a.model.value, a.field.value, OperandValue(a.value.value, source).value, a.fields.value)
  {
    if a.model.None? then Err(MissingArgument("model"))
    else if a.field.None? then Err(MissingArgument("field"))
    else if a.value.None? then Err(MissingArgument("value"))
    else if a.fields.None? then Err(MissingArgument("fields"))
    else if |a.fields.value| == 0 then Err(InvalidArguments)
    else
      var name := a.model.value;
      var field := a.field.value;
      var d :- Resolve(reg, scope, name);
      if field != "" && !HasField(d, field) then Err(UnknownField(name, field))
      else match FirstUndeclared(d, a.fields.value)
        case Some(f) => Err(UnknownField(name, f))
        case None =>
          var v :- OperandValue(a.value.value, source);
          Ok(Join(name, field, v, a.fields.value))
  }

  /** A record whose `field` equals the join value. */
  function Matches(field: FieldName, value: Value): Fields -> bool {
    row => field in row && row[field] == value
  }

  /** `[row for row in rows if getattr(row, field) == value]`: the rows whose join
      field holds the value, in order; a row without the field raises. */
  function Joined(rows: seq<Fields>, field: FieldName, value: Value): (r: Outcome<seq<Fields>>)
    ensures r.Ok? <==> forall i :: 0 <= i < |rows| ==> field in rows[i]
    ensures r.Ok? ==> r.value == Filter(rows, Matches(field, value))
    ensures r.Err? ==> r.error == MissingAttribute(field)
    decreases |rows|
  {
    if |rows| == 0 then Ok([])
    else
      var v :- GetAttr(rows[0], field);
      var rest :- Joined(rows[1..], field, value);
      assert forall i :: 1 <= i < |rows| ==> rows[i] == rows[1..][i - 1];
      Ok(if v == value then [rows[0]] + rest else rest)
  }

  /** `[getattr(row, f) for f in fields]`. */
  function Project(row: Fields, fields: seq<FieldName>): (r: Outcome<seq<Value>>)
    ensures r.Ok? <==> forall i :: 0 <= i < |fields| ==> fields[i] in row
    ensures r.Ok? ==> |r.value| == |fields| && forall i :: 0 <= i < |fields| ==> r.value[i] == row[fields[i]]
    ensures r.Err? ==> exists i :: 0 <= i < |fields| && r.error == MissingAttribute(fields[i])
    decreases |fields|
  {
    if |fields| == 0 then Ok([])
    else
      var v :- GetAttr(row, fields[0]);
      var rest :- Project(row, fields[1..]);
      assert forall i :: 1 <= i < |fields| ==> fields[i] == fields[1..][i - 1];
      Ok([v] + rest)
  }

  /** Lines 235-238 for every candidate: `row_op` over each row's projection. */
  function RowValues(rows: seq<Fields>, fields: seq<FieldName>, rowOp: Operator): (r: Outcome<seq<Value>>)
    ensures r.Ok? <==> forall i :: 0 <= i < |rows| ==>
      (Project(rows[i], fields).Ok? && Apply(rowOp, Project(rows[i], fields).value).Ok?)
    ensures r.Ok? ==> |r.value| == |rows|
    ensures r.Ok? ==> forall i :: 0 <= i < |rows| ==>
      (Project(rows[i], fields).Ok? && Ok(r.value[i]) == Apply(rowOp, Project(rows[i], fields).value))
    decreases |rows|
  {
    if |rows| == 0 then Ok([])
    else
      var vals :- Project(rows[0], fields);
      var v :- Apply(rowOp, vals);
      var rest :- RowValues(rows[1..], fields, rowOp);
      assert forall i :: 1 <= i < |rows| ==> rows[i] == rows[1..][i - 1];
      Ok([v] + rest)
  }

  /** Lines 232-243: `0` without candidates, the single row's `row_op` value for
      one, and `col_op` over the per-row values otherwise. */
  function Aggregate(rows: seq<Fields>, fields: seq<FieldName>, rowOp: Operator, colOp: Operator): (r: Outcome<Value>)
    ensures |rows| == 0 ==> r == Ok(Int(0))
    ensures |rows| == 1 ==>
      && (r.Ok? <==> Project(rows[0], fields).Ok? && Apply(rowOp, Project(rows[0], fields).value).Ok?)
      && (r.Ok? ==> r == Apply(rowOp, Project(rows[0], fields).value))
    ensures |rows| > 1 ==>
      && (RowValues(rows, fields, rowOp).Err? ==> r.Err?)
      && (RowValues(rows, fields, rowOp).Ok? ==> r == Apply(colOp, RowValues(rows, fields, rowOp).value))
  {
    if |rows| == 0 then Ok(Int(0))
    else
      var cols :- RowValues(rows, fields, rowOp);
      if |cols| == 1 then Ok(cols[0]) else Apply(colOp, cols)
  }

  /** The finalized rows line 230 keeps AS WRITTEN: it compares each whole row
      (a record of the model) with the join value instead of the row's join field. */
  function RawCandidatesAsWritten(raw: seq<Fields>, j: Join): Outcome<seq<Fields>> {
    Ok(Filter(raw, (r: Fields) => Record(j.name, r) == j.value))
  }

  /** `calculate` as written (lines 202-243). */
  function CalculateAsWritten(reg: Registry, scope: map<ModelName, ModelDef>, instances: Instances,
                              source: Fields, a: Args): (r: Outcome<Value>)
    requires Valid(reg)
  {
    var j :- Prepare(reg, scope, source, a);
    if j.name !in instances then Err(MissingEntry(j.name))
    else
      var scratch :- Joined(instances[j.name], j.field, j.value);
      if j.name !in reg.raw then Err(MissingEntry(j.name))
      else
        var finalized :- RawCandidatesAsWritten(reg.raw[j.name], j);
        Aggregate(scratch + finalized, j.fields, a.rowOp, a.colOp)
  }

  /** `calculate` with line 230 comparing the finalized row's join field, as the
      scratch rows on line 227 do: the evidently intended definition. The engine
      runs `CalculateAsWritten`, as the program does. */
  function Calculate(reg: Registry, scope: map<ModelName, ModelDef>, instances: Instances,
                     source: Fields, a: Args): (r: Outcome<Value>)
    requires Valid(reg)
  {
    var j :- Prepare(reg, scope, source, a);
    if j.name !in instances then Err(MissingEntry(j.name))
    else
      var scratch :- Joined(instances[j.name], j.field, j.value);
      if j.name !in reg.raw then Err(MissingEntry(j.name))
      else
        var finalized :- Joined(reg.raw[j.name], j.field, j.value);
        Aggregate(scratch + finalized, j.fields, a.rowOp, a.colOp)
  }

  /** `calculate` raises `e`, whether line 230 is read as written or corrected. */
  predicate FailsWith(reg: Registry, scope: map<ModelName, ModelDef>, instances: Instances, source: Fields, a: Args, e: Error)
    requires Valid(reg)
  {
    Calculate(reg, scope, instances, source, a) == Err(e) && CalculateAsWritten(reg, scope, instances, source, a) == Err(e)
  }

  /** The errors of `calculate`, in the order it meets them: a missing required
      argument, an empty `fields` list (checked before the model is resolved), a
      model that does not resolve, an undeclared join field, the first undeclared
      summed field, and a model without scratch records (`KeyError`). */
  lemma CalculateErrors(reg: Registry, scope: map<ModelName, ModelDef>, instances: Instances, source: Fields, a: Args)
    requires Valid(reg)
    ensures a.model.None? ==> FailsWith(reg, scope, instances, source, a, MissingArgument("model"))
    ensures a.model.Some? && a.field.None? ==> FailsWith(reg, scope, instances, source, a, MissingArgument("field"))
    ensures a.model.Some? && a.field.Some? && a.value.None? ==>
      FailsWith(reg, scope, instances, source, a, MissingArgument("value"))
    ensures a.model.Some? && a.field.Some? && a.value.Some? && a.fields.None? ==>
      FailsWith(reg, scope, instances, source, a, MissingArgument("fields"))
    ensures a.model.Some? && a.field.Some? && a.value.Some? && a.fields == Some([]) ==>
      FailsWith(reg, scope, instances, source, a, InvalidArguments)
    ensures a.model.Some? && a.field.Some? && a.value.Some? && a.fields.Some? && |a.fields.value| > 0 ==>
      var name := a.model.value;
      var field := a.field.value;
      var d := Resolve(reg, scope, name);
      && (d.Err? ==> FailsWith(reg, scope, instances, source, a, UnknownModel(name)))
      && (d.Ok? && field != "" && !HasField(d.value, field) ==>
            FailsWith(reg, scope, instances, source, a, UnknownField(name, field)))
      && (d.Ok? && (field == "" || HasField(d.value, field)) && FirstUndeclared(d.value, a.fields.value).Some? ==>
            FailsWith(reg, scope, instances, source, a, UnknownField(name, FirstUndeclared(d.value, a.fields.value).value)))
    ensures Prepare(reg, scope, source, a).Ok? && Prepare(reg, scope, source, a).value.name !in instances ==>
      FailsWith(reg, scope, instances, source, a, MissingEntry(Prepare(reg, scope, source, a).value.name))
  {
  }

  /** A successful `calculate` aggregates exactly the scratch and finalized rows of
      the model whose join field holds the join value, scratch rows first. */
  lemma CalculateCandidates(reg: Registry, scope: map<ModelName, ModelDef>, instances: Instances, source: Fields, a: Args)
    requires Valid(reg)
    requires Calculate(reg, scope, instances, source, a).Ok?
    ensures Prepare(reg, scope, source, a).Ok?
    ensures var j := Prepare(reg, scope, source, a).value;
      && j.name in instances && j.name in reg.raw
      && Calculate(reg, scope, instances, source, a)
         == Aggregate(Filter(instances[j.name] + reg.raw[j.name], Matches(j.field, j.value)), j.fields, a.rowOp, a.colOp)
  {
    var j := Prepare(reg, scope, source, a).value;
    FilterConcat(instances[j.name], reg.raw[j.name], Matches(j.field, j.value));
  }

  /** As written, line 230 never keeps a finalized row unless the join value is
      itself a record of the model: for a scalar join value only the scratch rows
      are aggregated. */
  lemma AsWrittenDropsFinalized(reg: Registry, scope: map<ModelName, ModelDef>, instances: Instances, source: Fields, a: Args)
    requires Valid(reg)
    requires CalculateAsWritten(reg, scope, instances, source, a).Ok?
    ensures Prepare(reg, scope, source, a).Ok?
    ensures var j := Prepare(reg, scope, source, a).value;
      !j.value.Record? ==>
        CalculateAsWritten(reg, scope, instances, source, a)
        == Aggregate(Filter(instances[j.name], Matches(j.field, j.value)), j.fields, a.rowOp, a.colOp)
  {
    var j := Prepare(reg, scope, source, a).value;
    if !j.value.Record? {
      FilterNone(reg.raw[j.name], (r: Fields) => Record(j.name, r) == j.value);
      assert Filter(instances[j.name], Matches(j.field, j.value)) + [] == Filter(instances[j.name], Matches(j.field, j.value));
    }
  }

  /** The arguments check out: every required argument is given, `fields` is
      non-empty, the model resolves, the join field and the summed fields are
      declared, and the join value can be read. */
  lemma PrepareJoin(reg: Registry, scope: map<ModelName, ModelDef>, source: Fields, a: Args, d: ModelDef, v: Value)
    requires Valid(reg)
    requires a.model.Some? && a.field.Some? && a.value.Some? && a.fields.Some? && |a.fields.value| > 0
    requires Resolve(reg, scope, a.model.value) == Ok(d)
    requires a.field.value == "" || HasField(d, a.field.value)
    requires forall i :: 0 <= i < |a.fields.value| ==> HasField(d, a.fields.value[i])
    requires OperandValue(a.value.value, source) == Ok(v)
    ensures Prepare(reg, scope, source, a) == Ok(Join(a.model.value, a.field.value, v, a.fields.value))
  {
  }

  /** Once the join rows are known, `calculate` aggregates the scratch rows
      followed by the finalized ones. */
  lemma CalculateJoined(reg: Registry, scope: map<ModelName, ModelDef>, instances: Instances, source: Fields, a: Args,
                        j: Join, scratch: seq<Fields>, finalized: seq<Fields>)
    requires Valid(reg) && Prepare(reg, scope, source, a) == Ok(j)
    requires j.name in instances && j.name in reg.raw
    requires Joined(instances[j.name], j.field, j.value) == Ok(scratch)
    requires Joined(reg.raw[j.name], j.field, j.value) == Ok(finalized)
    ensures Calculate(reg, scope, instances, source, a) == Aggregate(scratch + finalized, j.fields, a.rowOp, a.colOp)
  {
  }

  /** The same, as written, for a scalar join value: line 230 keeps no finalized
      row, so only the scratch rows are aggregated. */
  lemma CalculateAsWrittenJoined(reg: Registry, scope: map<ModelName, ModelDef>, instances: Instances, source: Fields, a: Args,
                                 j: Join, scratch: seq<Fields>)
    requires Valid(reg) && Prepare(reg, scope, source, a) == Ok(j) && !j.value.Record?
    requires j.name in instances && j.name in reg.raw
    requires Joined(instances[j.name], j.field, j.value) == Ok(scratch)
    ensures CalculateAsWritten(reg, scope, instances, source, a) == Aggregate(scratch + [], j.fields, a.rowOp, a.colOp)
  {
    FilterNone(reg.raw[j.name], (r: Fields) => Record(j.name, r) == j.value);
  }

  /** Every row holds an integer in each of `fields`. */
  predicate IntCells(rows: seq<Fields>, fields: seq<FieldName>) {
    forall i, k :: 0 <= i < |rows| && 0 <= k < |fields| ==> fields[k] in rows[i] && rows[i][fields[k]].Int?
  }

  /** The product of a row's integer fields (reference definition). */
  function RowProduct(row: Fields, fields: seq<FieldName>): int
    requires forall k :: 0 <= k < |fields| ==> fields[k] in row && row[fields[k]].Int?
  {
    if |fields| == 0 then 1 else row[fields[0]].i * RowProduct(row, fields[1..])
  }

  /** The sum over the rows of each row's product (reference definition). */
  function SumOfProducts(rows: seq<Fields>, fields: seq<FieldName>): int
    requires IntCells(rows, fields)
  {
    if |rows| == 0 then 0 else RowProduct(rows[0], fields) + SumOfProducts(rows[1..], fields)
  }

  /** The projection of a row onto integer fields multiplies to the row's product. */
  lemma {:induction false} ProjectProduct(row: Fields, fields: seq<FieldName>)
    requires forall k :: 0 <= k < |fields| ==> fields[k] in row && row[fields[k]].Int?
    ensures Project(row, fields).Ok? && AllNumeric(Project(row, fields).value)
    ensures MathProduct(Project(row, fields).value) == RowProduct(row, fields)
    decreases |fields|
  {
    if |fields| > 0 {
      ProjectProduct(row, fields[1..]);
      assert Project(row, fields).value[1..] == Project(row, fields[1..]).value;
    }
  }

  /** Per-row products, summed, are the sum of products. */
  lemma {:induction false} SumOfRowProducts(rows: seq<Fields>, fields: seq<FieldName>, cols: seq<Value>)
    requires IntCells(rows, fields)
    requires |cols| == |rows| && forall i :: 0 <= i < |rows| ==> cols[i] == Int(RowProduct(rows[i], fields))
    ensures AllNumeric(cols) && MathSum(cols) == SumOfProducts(rows, fields)
    decreases |rows|
  {
    if |rows| > 0 {
      assert IntCells(rows[1..], fields) by {
        assert forall i :: 0 <= i < |rows[1..]| ==> rows[1..][i] == rows[i + 1];
      }
      SumOfRowProducts(rows[1..], fields, cols[1..]);
    }
  }

  /** With `row_op=typed_product` and `col_op=typed_sum` over integer fields, the
      aggregate is the sum over the candidates of the product of their fields (and
      `0` without candidates). */
  lemma AggregateSumOfProducts(rows: seq<Fields>, fields: seq<FieldName>)
    requires |fields| > 0 && IntCells(rows, fields)
    ensures Aggregate(rows, fields, TypedProduct, TypedSum) == Ok(Int(SumOfProducts(rows, fields)))
  {
    if |rows| > 0 {
      forall i | 0 <= i < |rows|
        ensures Project(rows[i], fields).Ok? && AllNumeric(Project(rows[i], fields).value)
        ensures Apply(TypedProduct, Project(rows[i], fields).value) == Ok(Int(RowProduct(rows[i], fields)))
      {
        ProjectProduct(rows[i], fields);
      }
      var cols := RowValues(rows, fields, TypedProduct).value;
      SumOfRowProducts(rows, fields, cols);
      if |rows| == 1 {
        assert SumOfProducts(rows[1..], fields) == 0;
      }
    }
  }

  /** With the default `row_op=noop` and `col_op=noop`, `calculate` yields `0`
      when no row joins and `None` otherwise, provided every joined row has the
      summed fields; a row without one raises. */
  lemma DefaultOperators(rows: seq<Fields>, fields: seq<FieldName>)
    ensures |rows| == 0 ==> Aggregate(rows, fields, Noop, Noop) == Ok(Int(0))
    ensures |rows| > 0 ==>
      (Aggregate(rows, fields, Noop, Noop).Ok? <==> forall i, k :: 0 <= i < |rows| && 0 <= k < |fields| ==> fields[k] in rows[i])
    ensures |rows| > 0 && Aggregate(rows, fields, Noop, Noop).Ok? ==> Aggregate(rows, fields, Noop, Noop) == Ok(Null)
  {
    if |rows| > 0 {
      if forall i, k :: 0 <= i < |rows| && 0 <= k < |fields| ==> fields[k] in rows[i] {
        assert forall i :: 0 <= i < |rows| ==> Project(rows[i], fields).Ok?;
      } else {
        var i, k :| 0 <= i < |rows| && 0 <= k < |fields| && fields[k] !in rows[i];
        assert !Project(rows[i], fields).Ok?;
      }
    }
  }

  /** The join of the end-to-end order scenario: an order product model whose
      annotations do not matter to `calculate`. */
  function OrderProduct(): ModelDef {
    ModelDef("OrderProduct", [FieldDecl("id", Bare), FieldDecl("order_id", Bare), FieldDecl("product_id", Bare),
                              FieldDecl("quantity", Bare), FieldDecl("unit_price", Bare)])
  }

  function OrderLine(id: int, price: int, quantity: int): Fields {
    map["id" := Int(id), "order_id" := Int(1), "product_id" := Int(1), "quantity" := Int(quantity), "unit_price" := Int(price)]
  }

  /** `total_amount = calculate(model="OrderProduct", field="order_id",
      value=ValueOf("id"), fields=["unit_price", "quantity"], row_op=typed_product,
      col_op=typed_sum)`. */
  function TotalAmount(): Args {
    Args(Some("OrderProduct"), Some("order_id"), Some(["unit_price", "quantity"]), Some(ValueOf("id")), None,
         TypedProduct, TypedSum, None)
  }

  /** The registry of the scenario: order 1 has one finalized line (price 5,
      quantity 1). */
  function OrderRegistry(): (reg: Registry)
    ensures Valid(reg)
  {
    OrderProductWellFormed();
    Registry(["OrderProduct"], map["OrderProduct" := OrderProduct()], map["OrderProduct" := [OrderLine(1, 5, 1)]])
  }

  /** The five field names of `OrderProduct` are distinct and non-empty. */
  lemma OrderProductWellFormed()
    ensures WellFormedDef(OrderProduct())
  {
    var d := OrderProduct();
    forall i, j | 0 <= i < j < |d.decls|
      ensures d.decls[i].name != d.decls[j].name
    {
      var a := d.decls[i].name;
      var b := d.decls[j].name;
      assert |a| != |b| || a[0] != b[0];
    }
  }

  /** The arguments check out against the order record with `id` 1. */
  lemma OrderJoin()
    ensures Prepare(OrderRegistry(), map[], map["id" := Int(1)], TotalAmount())
         == Ok(Join("OrderProduct", "order_id", Int(1), ["unit_price", "quantity"]))
  {
    var d := OrderProduct();
    assert FieldNames(d) == ["id", "order_id", "product_id", "quantity", "unit_price"];
    assert HasField(d, "order_id");
    assert HasField(d, ["unit_price", "quantity"][0]) && HasField(d, ["unit_price", "quantity"][1]);
    PrepareJoin(OrderRegistry(), map[], map["id" := Int(1)], TotalAmount(), d, Int(1));
  }

  /** Rows that all carry the join value are all joined. */
  lemma JoinedAll(rows: seq<Fields>, field: FieldName, value: Value)
    requires forall i :: 0 <= i < |rows| ==> field in rows[i] && rows[i][field] == value
    ensures Joined(rows, field, value) == Ok(rows)
  {
    FilterAll(rows, Matches(field, value));
  }

  lemma OrderLineCells(id: int, price: int, quantity: int)
    ensures var row := OrderLine(id, price, quantity);
      && "order_id" in row && row["order_id"] == Int(1)
      && "unit_price" in row && row["unit_price"] == Int(price)
      && "quantity" in row && row["quantity"] == Int(quantity)
  {
  }

  /** The scratch line (10 x 2) and the finalized line (5 x 1) of order 1 sum to 25. */
  lemma OrderLinesTotal()
    ensures IntCells([OrderLine(2, 10, 2), OrderLine(1, 5, 1)], ["unit_price", "quantity"])
    ensures SumOfProducts([OrderLine(2, 10, 2), OrderLine(1, 5, 1)], ["unit_price", "quantity"]) == 25
    ensures IntCells([OrderLine(2, 10, 2)], ["unit_price", "quantity"])
    ensures SumOfProducts([OrderLine(2, 10, 2)], ["unit_price", "quantity"]) == 20
  {
    OrderLineCells(2, 10, 2);
    OrderLineCells(1, 5, 1);
    var fields := ["unit_price", "quantity"];
    var rows := [OrderLine(2, 10, 2), OrderLine(1, 5, 1)];
    assert RowProduct(rows[0], fields) == 20 by {
      assert fields[1..][1..] == [];
    }
    assert RowProduct(rows[1], fields) == 5 by {
      assert fields[1..][1..] == [];
    }
    assert rows[1..][1..] == [];
  }

  /** The two lines aggregate to 25 together and the scratch line alone to 20. */
  lemma OrderLinesAggregate()
    ensures Aggregate([OrderLine(2, 10, 2)] + [OrderLine(1, 5, 1)], ["unit_price", "quantity"], TypedProduct, TypedSum)
         == Ok(Int(25))
    ensures Aggregate([OrderLine(2, 10, 2)] + [], ["unit_price", "quantity"], TypedProduct, TypedSum) == Ok(Int(20))
  {
    OrderLinesTotal();
    assert [OrderLine(2, 10, 2)] + [OrderLine(1, 5, 1)] == [OrderLine(2, 10, 2), OrderLine(1, 5, 1)];
    AggregateSumOfProducts([OrderLine(2, 10, 2), OrderLine(1, 5, 1)], ["unit_price", "quantity"]);
    assert [OrderLine(2, 10, 2)] + [] == [OrderLine(2, 10, 2)];
    AggregateSumOfProducts([OrderLine(2, 10, 2)], ["unit_price", "quantity"]);
  }

  /** Both lines belong to order 1. */
  lemma OrderLinesJoined()
    ensures Joined([OrderLine(2, 10, 2)], "order_id", Int(1)) == Ok([OrderLine(2, 10, 2)])
    ensures Joined([OrderLine(1, 5, 1)], "order_id", Int(1)) == Ok([OrderLine(1, 5, 1)])
  {
    OrderLineCells(2, 10, 2);
    OrderLineCells(1, 5, 1);
    JoinedAll([OrderLine(2, 10, 2)], "order_id", Int(1));
    JoinedAll([OrderLine(1, 5, 1)], "order_id", Int(1));
  }

  /** Order 1 also has one scratch line (price 10, quantity 2): the corrected
      total counts both lines, 25. */
  lemma OrderTotalExample()
    ensures Calculate(OrderRegistry(), map[], map["OrderProduct" := [OrderLine(2, 10, 2)]], map["id" := Int(1)], TotalAmount()) == Ok(Int(25))
  {
    OrderJoin();
    OrderLinesJoined();
    CalculateJoined(OrderRegistry(), map[], map["OrderProduct" := [OrderLine(2, 10, 2)]], map["id" := Int(1)], TotalAmount(), Join("OrderProduct", "order_id", Int(1), ["unit_price", "quantity"]),
                    [OrderLine(2, 10, 2)], [OrderLine(1, 5, 1)]);
    OrderLinesAggregate();
  }

  /** The same order as written: line 230 drops the finalized line and the total
      is 20. */
  lemma OrderTotalAsWritten()
    ensures CalculateAsWritten(OrderRegistry(), map[], map["OrderProduct" := [OrderLine(2, 10, 2)]], map["id" := Int(1)], TotalAmount()) == Ok(Int(20))
  {
    OrderJoin();
    OrderLinesJoined();
    CalculateAsWrittenJoined(OrderRegistry(), map[], map["OrderProduct" := [OrderLine(2, 10, 2)]], map["id" := Int(1)], TotalAmount(), Join("OrderProduct", "order_id", Int(1), ["unit_price", "quantity"]),
                             [OrderLine(2, 10, 2)]);
    OrderLinesAggregate();
  }
}
