# fake-schema-generator, modelled in Dafny

`FakeSchemaGenerator` produces linked synthetic rows for a set of Python dataclasses
("models"). Each field carries a `FakeType` directive. Most directives name a Faker
producer. Two of them close the graph:

- `reference` picks a value from another model's rows;
- `calculate` aggregates the rows of another model that join to the current row.

The generator works in three steps:

1. It discovers every model that a registered model's directives read. It registers
   the missing ones, repeating until no new model turns up.
2. It builds the field dependency graph and the model dependency map. It sorts the
   fields with Kahn's algorithm, rejects cycles, and moves fields of models that read
   nothing to the front.
3. On each pass it fills one scratch record per model in that order, then appends
   a copy of every scratch record to the model's finalized rows.

The project models this engine as pure functions over immutable state:

| file | module | models |
|---|---|---|
| `wrappers.dfy` | `Wrappers` | `Option`, `Result`, and the `Error` kinds the generator raises |
| `schema.dfy` | `Schema` | model definitions, field declarations, directives, values, `_has_field` |
| `seqs.dfy` | `Seqs` | helper facts about sequences (distinctness, filtering, counting) |
| `registry.dfy` | `Registry` | `_models`/`_raw_data`, `_register`, `_model_str_to_model` |
| `dependencies.dfy` | `Dependencies` | `_build_field_dependencies` (with its fixed point) and the model map of `_build_model_dependencies` |
| `graph.dfy` | `FieldGraphs` | the field graph, dependency-respecting orders, cycles |
| `kahn.dfy` | `Kahn`, `TopologicalSort` | the Kahn sort and cycle check of `_build_field_dag` |
| `ordering.dfy` | `Ordering` | the reordering that ends `_build_field_dag` |
| `operators.dfy` | `Operators` | `typed_sum`, `typed_product`, `noop` |
| `sequential.dfy` | `SequentialNumbers` | `sequential_number`, `reset_sequence` |
| `resolvers.dfy` | `Resolvers` | `reference`, `calculate` (as written, which the engine runs, and corrected), condition comparison |
| `engine.dfy` | `Engine` | `generate_from_dag`: build on first use, the field walk, finalization |

Modelling choices:

- Errors that Python raises (`ValueError`, `KeyError`, `TypeError`, `AttributeError`)
  become `Err` values of one `Error` datatype. `:-` propagates them, the way an
  exception aborts the operation.
- Faker's leaf producers (`name`, `email`, ...) are an `Oracle` parameter. It has
  three parts: the kinds Faker knows, a function giving the value drawn at each step,
  and the index `random.choice` picks at each step.
- Models that the generator looks up by name in the caller's module globals are a
  `scope` map parameter.
- Values are `Null`, unbounded `Int`, `Str`, or a `Record` of a named model.

## Model

All source paths are relative to the repository root. `FakeSchemaGenerator.py` means
`fake_schema_generator/fake_types/FakeSchemaGenerator.py`, which the table writes out
in full.

| member | source | states |
|---|---|---|
| Schema.HasFieldDeclared | fake_schema_generator/fake_types/FakeSchemaGenerator.py:54-56 | a model has a field exactly when one of its declarations carries that name |
| Registry.RegisterProperties | fake_schema_generator/fake_types/FakeSchemaGenerator.py:194-200 | registering keeps the registry valid, keeps every earlier model and its rows, and is idempotent |
| Registry.ResolveRegister | fake_schema_generator/fake_types/FakeSchemaGenerator.py:168-200 | a name resolves to a well-formed dataclass of that very name; registering it makes the name known and changes how no name resolves, so an earlier registration and a resolution now are interchangeable |
| Registry.RegisterAllAppends | fake_schema_generator/fake_types/FakeSchemaGenerator.py:147-150 | registering fresh discovered models appends exactly them to the order, the models and the row stores |
| Registry.RegisterAllValid | fake_schema_generator/fake_types/FakeSchemaGenerator.py:147-150 | registering fresh discovered models keeps the registry valid |
| Registry.RegisterAllContents | fake_schema_generator/fake_types/FakeSchemaGenerator.py:147-150 | earlier models and rows are kept; each new model gets its own dataclass and no rows |
| Dependencies.TargetFields | fake_schema_generator/fake_types/FakeSchemaGenerator.py:131-136 | without `field` the list cannot be built; otherwise it holds exactly the non-empty `field` and `fields` entries |
| Dependencies.DirectiveEdges | fake_schema_generator/fake_types/FakeSchemaGenerator.py:131-143 | a graph-closing directive's edges are exactly (model, f) for each non-empty target f; a missing `field`, or a missing `model` when a target exists, is an error |
| Dependencies.FieldEntry | fake_schema_generator/fake_types/FakeSchemaGenerator.py:119-145 | a field without metadata gets no graph node; metadata without a graph-closing directive gets a node with no edges; a graph-closing directive gets its edges |
| Dependencies.Referenced | fake_schema_generator/fake_types/FakeSchemaGenerator.py:135-138 | a field names a model to register exactly when its entry has at least one edge, and every edge points into that model |
| Dependencies.ScanOk | fake_schema_generator/fake_types/FakeSchemaGenerator.py:116-145 | one pass over the fields succeeds exactly when every field's entry is well formed and every model it reads can be resolved |
| Dependencies.ScanGraph | fake_schema_generator/fake_types/FakeSchemaGenerator.py:116-145 | a pass adds exactly the annotated fields as nodes, each with its own directive's edges, and leaves other nodes alone |
| Dependencies.ScanFound | fake_schema_generator/fake_types/FakeSchemaGenerator.py:135-138 | a pass finds every unregistered model some field reads, each once and in discovery order, and nothing that no field reads |
| Dependencies.ScanKeys | fake_schema_generator/fake_types/FakeSchemaGenerator.py:116-145 | a pass appends the annotated fields' nodes to the key order, in scan order |
| Dependencies.ScanDeps | fake_schema_generator/fake_types/FakeSchemaGenerator.py:116-145 | a pass adds exactly the annotated fields as graph entries and leaves every other entry alone |
| Dependencies.ScanEntries | fake_schema_generator/fake_types/FakeSchemaGenerator.py:119-145 | after a pass, each annotated field's entry is the one its own directive gives |
| Dependencies.RoundRegisters | fake_schema_generator/fake_types/FakeSchemaGenerator.py:137-150 | the models one pass finds are fresh, distinct names from the scope, each read by a scanned field; registering them grows the registry by exactly them |
| Dependencies.BuildStep | fake_schema_generator/fake_types/FakeSchemaGenerator.py:147-151 | a pass that finds models registers them and continues from the grown registry, and those models come first in the list of registered models |
| Dependencies.ClosureRegisters | fake_schema_generator/fake_types/FakeSchemaGenerator.py:147-151 | when discovery succeeds, the registry is only extended with fresh models from the scope, and one more pass finds nothing new |
| Dependencies.ClosureMinimal | fake_schema_generator/fake_types/FakeSchemaGenerator.py:137-151 | every model that discovery registers is read by a field of a model registered before it |
| Dependencies.FinalGraphNodes | fake_schema_generator/fake_types/FakeSchemaGenerator.py:114-145 | the final field graph is well formed; its nodes are the annotated fields of the registered models, each with its directive's edges |
| Dependencies.FinalGraphFields | fake_schema_generator/fake_types/FakeSchemaGenerator.py:119-145 | every node is a declared field of a registered model, and a field without metadata is never a node |
| Dependencies.FinalGraphNamed | fake_schema_generator/fake_types/FakeSchemaGenerator.py:119-145 | no node of the final graph has an empty field name, because nodes are declared fields |
| Dependencies.NodesAreFields | fake_schema_generator/fake_types/FakeSchemaGenerator.py:119-145 | the nodes of the scanned items are declared fields of registered models, and no field without metadata is among them |
| Dependencies.FinalGraphClosed | fake_schema_generator/fake_types/FakeSchemaGenerator.py:147-151 | at the fixed point, every model a field reads is registered |
| Dependencies.CollectModelDepsSpec | fake_schema_generator/fake_types/FakeSchemaGenerator.py:158-164 | folding over the graph's nodes adds each node's model, with the models of its edges added to that model's set |
| Dependencies.ModelDependenciesSpec | fake_schema_generator/fake_types/FakeSchemaGenerator.py:147-164 | the model map's keys are the graph's models plus the auto-registered ones; m depends on t exactly when a field of m has an edge into t |
| FieldGraphs.RespectsBefore | fake_schema_generator/fake_types/FakeSchemaGenerator.py:76-100 | in a dependency-respecting order, every dependency of a node comes earlier |
| FieldGraphs.RespectingOrderIsAcyclic | fake_schema_generator/fake_types/FakeSchemaGenerator.py:101-103 | a graph that has a dependency-respecting order of all its nodes has no cycle |
| TopologicalSort.KahnOrderCorrect | fake_schema_generator/fake_types/FakeSchemaGenerator.py:76-103 | the sort succeeds exactly on closed acyclic graphs, listing every node once and after its dependencies; a cycle gives `CyclicDependency`; an edge to a missing node gives `MissingNode` |
| TopologicalSort.RepeatIsCycle | fake_schema_generator/fake_types/FakeSchemaGenerator.py:101-103 | a walk along dependency edges that comes back to a node contains a cycle between the two visits |
| Ordering.EmptyFieldModels | fake_schema_generator/fake_types/FakeSchemaGenerator.py:108 | the middle group holds only models that have a node with an empty field name |
| Ordering.EmptyFieldModelsNone | fake_schema_generator/fake_types/FakeSchemaGenerator.py:108 | when every field name is non-empty, the middle group is empty |
| Ordering.ReorderPermutation | fake_schema_generator/fake_types/FakeSchemaGenerator.py:105-112 | the reordering is still a permutation of the graph's nodes |
| Ordering.ReorderPrefix | fake_schema_generator/fake_types/FakeSchemaGenerator.py:105-106 | every field of an independent model comes before every other field |
| Ordering.ReorderGroups | fake_schema_generator/fake_types/FakeSchemaGenerator.py:106-110 | both groups keep the relative order the sort gave them |
| Ordering.ReorderRespects | fake_schema_generator/fake_types/FakeSchemaGenerator.py:105-112 | if independent models' fields have no edges, the reordering still puts every field after its dependencies |
| Ordering.IndependentReadsNothing | fake_schema_generator/fake_types/FakeSchemaGenerator.py:74 | no field of an independent model has an edge |
| Ordering.BuildFieldDagCorrect | fake_schema_generator/fake_types/FakeSchemaGenerator.py:70-112 | `_build_field_dag` succeeds exactly on closed acyclic graphs and then gives a dependency-respecting permutation: independent models come first, and both groups keep the sort's order |
| Operators.FoldAddIsSum | fake_schema_generator/operators/sum_operator.py:31-39 | the accumulation loop adds the sum of the rest to its start value |
| Operators.FoldMulIsProduct | fake_schema_generator/operators/product_operator.py:31-39 | the accumulation loop multiplies its start value by the product of the rest |
| Operators.Sum | fake_schema_generator/operators/sum_operator.py:24-39 | an empty sequence gives `None`; a non-numeric element gives `TypeError`; otherwise the result is the arithmetic sum |
| Operators.Product | fake_schema_generator/operators/product_operator.py:24-39 | an empty sequence gives `None`; a non-numeric element gives `TypeError`; otherwise the result is the arithmetic product |
| Operators.OperatorExamples | tests/sum_operator_test.py:14-32 | the sums, products and type errors from the operator tests |
| SequentialNumbers.Next | fake_schema_generator/providers/SequentialNumberProvider.py:9-13 | a number is one more than the namespace's last one, starting at 1; only that namespace's counter changes |
| SequentialNumbers.Reset | fake_schema_generator/providers/SequentialNumberProvider.py:15-17 | resetting forgets exactly that namespace's counter |
| SequentialNumbers.CallsAdvance | fake_schema_generator/providers/SequentialNumberProvider.py:9-13 | k calls advance the namespace by k and leave other namespaces alone |
| SequentialNumbers.NextAfterNext | fake_schema_generator/providers/SequentialNumberProvider.py:9-13 | consecutive numbers in a namespace differ by one, and a new namespace starts at 1 |
| SequentialNumbers.ResetRestarts | fake_schema_generator/providers/SequentialNumberProvider.py:15-17 | after a reset the namespace restarts at 1, and other namespaces continue |
| SequentialNumbers.ProviderExamples | tests/SequentialNumberProvider_test.py:20-35 | the interleaved-namespace and reset sequences from the provider tests |
| Resolvers.StrLessTotal | fake_schema_generator/fake_types/FakeSchemaGenerator.py:301-308 | Python's string order is irreflexive, and exactly one of two distinct strings is smaller |
| Resolvers.Less | fake_schema_generator/fake_types/FakeSchemaGenerator.py:301-308 | ordering two ints or two strings succeeds, and on ints it is numeric; any other pair gives `TypeError` |
| Resolvers.Compare | fake_schema_generator/fake_types/FakeSchemaGenerator.py:301-308 | `==` and `!=` always succeed; an ordering comparison succeeds exactly on comparable pairs and agrees with integer order |
| Resolvers.CompareStr | fake_schema_generator/fake_types/FakeSchemaGenerator.py:301-308 | on strings, `<=` is "equal or less", `>=` is "equal or greater", and `<` and `>` never both hold |
| Resolvers.Holds | fake_schema_generator/fake_types/FakeSchemaGenerator.py:299-311 | `all([...])` evaluates every condition, so it succeeds exactly when all of them evaluate, and holds exactly when all of them are true |
| Resolvers.FirstMatch | fake_schema_generator/fake_types/FakeSchemaGenerator.py:298-313 | the search finds the first row whose conditions hold, with all earlier rows rejected; an error comes from the first row that fails to evaluate |
| Resolvers.FirstMatchIsFirst | fake_schema_generator/fake_types/FakeSchemaGenerator.py:298-313 | a row that matches after only rejected rows is the one the search returns |
| Resolvers.ReferenceErrors | fake_schema_generator/fake_types/FakeSchemaGenerator.py:282-292 | an unknown model, an undeclared field, a model without scratch entry and a model with no rows each give their error |
| Resolvers.ReferenceFirstMatch | fake_schema_generator/fake_types/FakeSchemaGenerator.py:296-319 | with conditions, the result is the field of the first matching row, or `NoMatchingRow` when all are rejected; conversely, whenever row i matches and every earlier row is rejected, the result is row i's field; the random choice plays no part |
| Resolvers.ReferencePoolMember | fake_schema_generator/fake_types/FakeSchemaGenerator.py:314-319 | without conditions, the result is the field of the row the choice selects from finalized rows followed by scratch rows |
| Resolvers.ReferenceFromPool | fake_schema_generator/fake_types/FakeSchemaGenerator.py:296-319 | without conditions, the value always comes from some row of the pool |
| Resolvers.ReferenceReachesAll | fake_schema_generator/fake_types/FakeSchemaGenerator.py:314-315 | every row of the pool can be chosen |
| Resolvers.FirstUndeclared | fake_schema_generator/fake_types/FakeSchemaGenerator.py:221-223 | the check finds nothing exactly when all listed fields are declared; otherwise it reports the first undeclared one |
| Resolvers.Prepare | fake_schema_generator/fake_types/FakeSchemaGenerator.py:212-225 | a successful preparation needs every argument and a non-empty field list, a model that resolves, a declared (or empty) join field, declared summed fields and a readable value, and then carries exactly the model, the join field, the value read from the source row and the field list |
| Resolvers.Joined | fake_schema_generator/fake_types/FakeSchemaGenerator.py:227-229 | the join succeeds exactly when every row has the join field, and keeps exactly the rows whose field equals the value |
| Resolvers.Project | fake_schema_generator/fake_types/FakeSchemaGenerator.py:237 | projecting a row succeeds exactly when it has every field, giving their values in order |
| Resolvers.RowValues | fake_schema_generator/fake_types/FakeSchemaGenerator.py:235-239 | one value per row, each the row operator applied to that row's projection; it fails exactly when some row fails |
| Resolvers.Aggregate | fake_schema_generator/fake_types/FakeSchemaGenerator.py:232-243 | no candidate rows give 0; one row gives its row operator's value, failing exactly when its projection or the operator fails; more rows give the column operator over the per-row values and fail when any row does |
| Resolvers.DefaultOperators | fake_schema_generator/operators/noop_operator.py:1-9 | with the default `noop` operators the total is 0 for no joined rows; otherwise it succeeds exactly when every joined row has every summed field, and is then `None` |
| Resolvers.PrepareJoin | fake_schema_generator/fake_types/FakeSchemaGenerator.py:202-225 | when every argument is given, `fields` is non-empty, the model resolves, the join and summed fields are declared and the value can be read, preparation yields exactly that join |
| Resolvers.CalculateJoined | fake_schema_generator/fake_types/FakeSchemaGenerator.py:227-243 | once the scratch and finalized rows have joined, the corrected result aggregates the scratch rows followed by the finalized ones |
| Resolvers.CalculateAsWrittenJoined | fake_schema_generator/fake_types/FakeSchemaGenerator.py:227-243 | as written, with a scalar join value, only the joined scratch rows are aggregated |
| Resolvers.CalculateErrors | fake_schema_generator/fake_types/FakeSchemaGenerator.py:212-229 | both as written and corrected: a missing argument, an empty field list, an unknown model, an undeclared join field, the first undeclared summed field and a model without scratch records each give their error, in that order of precedence |
| Resolvers.CalculateCandidates | fake_schema_generator/fake_types/FakeSchemaGenerator.py:227-243 | the corrected result aggregates the scratch and finalized rows whose join field equals the value |
| Resolvers.AsWrittenDropsFinalized | fake_schema_generator/fake_types/FakeSchemaGenerator.py:230 | as written, when the value is not a record no finalized row is ever aggregated |
| Resolvers.AggregateSumOfProducts | fake_schema_generator/fake_types/FakeSchemaGenerator.py:232-243 | with the product as row operator and the sum as column operator, the result is the sum over rows of the field products, and 0 for no rows |
| Resolvers.OrderTotalExample | fake_schema_generator/fake_types/FakeSchemaGenerator.py:227-230 | an order with a scratch line 10×2 and a finalized line 5×1 totals 25 with the corrected join |
| Resolvers.OrderTotalAsWritten | fake_schema_generator/fake_types/FakeSchemaGenerator.py:227-230 | the same order totals 20 as written, because the finalized line is dropped |
| Engine.StartConsistent | fake_schema_generator/fake_types/FakeSchemaGenerator.py:43-52 | a fresh generator over a valid registry satisfies the state invariant |
| Engine.BuildCorrect | fake_schema_generator/fake_types/FakeSchemaGenerator.py:153-166 | building succeeds exactly when the discovered graph is closed and acyclic; it then gives a dependency-respecting field order and keeps the invariant, the scratch records, the counters and the earlier models; line 108 finds no node with an empty field name |
| Engine.DeclOf | fake_schema_generator/fake_types/FakeSchemaGenerator.py:257-263 | the declaration found carries the node's field name; when none is found, no declaration has that name |
| Engine.Produce | fake_schema_generator/fake_types/FakeSchemaGenerator.py:266-270 | `reference` and `calculate` return exactly what their resolvers return on the current scratch record, `calculate` as written, and keep the counters; `sequential_number` gives the namespace's next number, with namespace "default" when none is given; `reset_sequence` resets that namespace and yields `None`; any other kind draws from Faker and keeps the counters |
| Engine.OrderTotalInPass | fake_schema_generator/fake_types/FakeSchemaGenerator.py:225-230 | in a pass, the engine computes an order's total from the scratch order line only, 20 instead of the intended 25, because it runs line 230 as written |
| Engine.WithScratch | fake_schema_generator/fake_types/FakeSchemaGenerator.py:252-255 | a model's first visit creates its fresh scratch record; later visits keep the existing one |
| Engine.SetLast | fake_schema_generator/fake_types/FakeSchemaGenerator.py:256-270 | only the model's last record changes; every other model and earlier record stays as it was |
| Engine.Visit | fake_schema_generator/fake_types/FakeSchemaGenerator.py:252-270 | recording a visit keeps the invariant and everything but the model's scratch record and the counters; the record becomes the field set to the produced value, or stays as it was when nothing was produced |
| Engine.StepFrame | fake_schema_generator/fake_types/FakeSchemaGenerator.py:249-270 | visiting a node keeps the invariant and the graph, and touches only the node's own model's scratch record |
| Engine.StepEffect | fake_schema_generator/fake_types/FakeSchemaGenerator.py:252-270 | visiting a node sets exactly that field of the scratch record to the produced value, or leaves the record alone when no producer acts |
| Engine.Visited | fake_schema_generator/fake_types/FakeSchemaGenerator.py:249-250 | the visited models are exactly the models of the walked nodes |
| Engine.WalkSpec | fake_schema_generator/fake_types/FakeSchemaGenerator.py:249-270 | a walk keeps the invariant and the graph, and gives a scratch record to exactly the models it visits |
| Engine.FinalizeSpec | fake_schema_generator/fake_types/FakeSchemaGenerator.py:272-273 | finalizing appends each model's scratch record to its rows and leaves models without one unchanged |
| Engine.GenerateSpec | fake_schema_generator/fake_types/FakeSchemaGenerator.py:245-273 | a pass builds only when the model map is empty and otherwise reuses the graph and order; every model in the order gets a scratch record; each model with a scratch record ends with its rows from before the pass (none for a model registered by the build) followed by exactly that record; every other model keeps its rows |
| Engine.BuildRows | fake_schema_generator/fake_types/FakeSchemaGenerator.py:147-151 | a build keeps every model's rows and gives each model it registers an empty row store |
| Engine.FinalRows | fake_schema_generator/fake_types/FakeSchemaGenerator.py:272-273 | after finalizing, each model's rows are its rows from before the build followed by its scratch record |
| Engine.CustomerBuild | tests/FakeSchemaGenerator_test.py:97-106 | registering the Customer model and building it gives the models, model dependencies, field dependencies and field order the basic-schema test asserts |
| Engine.CustomerPass | fake_schema_generator/fake_types/FakeSchemaGenerator.py:245-273 | one pass over the built Customer model appends one row: the scratch record with the next customer number and the drawn name |
| Engine.CustomerNextPass | fake_schema_generator/fake_types/FakeSchemaGenerator.py:245-273 | after n passes with customers 1 to n finalized, the next pass finalizes customer n+1 |
| Engine.CustomerFirstPass | tests/FakeSchemaGenerator_test.py:97-110 | the build of the registered Customer model is derived, and its first pass finalizes exactly `Customer(id=1, name="Norma Fisher")` |
| Engine.CustomerSecondPass | fake_schema_generator/fake_types/FakeSchemaGenerator.py:245-273 | a second pass over the Customer model keeps customer 1 and finalizes customer 2 after it, refilling the same scratch record |
| Engine.CustomerTwoPasses | fake_schema_generator/fake_types/FakeSchemaGenerator.py:245-273 | on a freshly registered Customer model, the first pass builds the graph itself, and two passes finalize exactly customers 1 and 2, in that order |
| TopologicalSort.EdgelessOrder | fake_schema_generator/fake_types/FakeSchemaGenerator.py:76-100 | a graph without edges is sorted in its key order |
| Ordering.ReorderAllIndependent | fake_schema_generator/fake_types/FakeSchemaGenerator.py:105-112 | when every field belongs to an independent model, the reordering keeps the sorted order |
| Ordering.EdgelessDag | fake_schema_generator/fake_types/FakeSchemaGenerator.py:70-112 | a graph without edges whose models depend on nothing is ordered exactly as its nodes were added |

## Left out

- `_model_str_to_model`'s search of the caller's stack frames is replaced by the `scope` map. The loop at FakeSchemaGenerator.py:180-188 never advances when it finds a non-dataclass global of that name. That case is not modelled, because `scope` holds only dataclasses.
- Faker's own producers, its seeding, and `random.choice` are oracle parameters. Their values are not modelled.
- Floating-point values, such as `pyfloat` prices and the float sums in the operator tests, are not modelled. Numbers are unbounded integers.
- Operators.Sum: covers only the integer and type-error cases of `typed_sum`, because floats and `Decimal` are not modelled.
- Operators.Product: covers only the integer and type-error cases of `typed_product`, for the same reason.
- The reflection helpers `extract_annotations`, `dataclass_to_interface` and `resolve_annotated_type` are not modelled. A model definition is given directly as its list of annotated field declarations.
- The provider classes (`ReferenceProvider`, `CalculateProvider`, `SchemaReferenceBaseProvider`, `ProductNameProvider`) are thin wrappers. They contribute only the kind names in `Engine.Providers` and the graph-closing kinds `reference`/`calculate`.
- Resolvers.RowValues: hands a row's projected values to the row operator as one sequence. The source spreads them as positional arguments (`row_op(*row_values)`, line 238), while `typed_sum` and `typed_product` each take one sequence. The package's `__init__` exports the operators the tests use. It is not part of this model. The tests expect the product of the listed fields (tests/FakeSchemaGenerator_test.py:137-150), so the model passes the values as a sequence.
- Resolvers.Aggregate: hands the column values to the column operator as one sequence (line 243), for the same reason.
- `_field_populated` is written but never read, so it is not modelled.
- The auto-registration at FakeSchemaGenerator.py:147-150 iterates a Python `set`, whose order is unspecified. The model registers models in discovery order.
- FakeSchemaGenerator.py:316-317 cannot be reached, because line 291 has already raised whenever both stores are empty. It is not modelled.
- Passing `model` as a class instead of a name is not modelled; directives always name models by string.
- Unexpected keyword arguments in a directive are not modelled. A directive carries the fixed argument set `Args`.
- The public `register` and the `_data` store are not modelled; `_register` and `_raw_data` are.
- State after a raised error is not modelled. An `Err` aborts the operation, and the partial updates Python leaves behind are ignored.
- Scratch records are never cleared between passes. A pass overwrites them field by field, as the code does.
- A directive kind that Faker does not provide is skipped silently (line 265). It does not raise an error.
- Condition operands of a `reference` directive add no graph edges. Lines 131-134 read only `field` and `fields`.
- The CustomerDetails pull-in scenario (tests/FakeSchemaGenerator_test.py:117-135) and the circular-schema scenario are not instantiated as concrete lemmas. For CustomerDetails, the general properties give only that the order respects every dependency and puts independent models first. The exact order `[Customer.id, Customer.name, CustomerDetails.id, CustomerDetails.email, CustomerDetails.customer_id]` that the test asserts is not proved.
- Resolvers.Aggregate: only `noop`, `typed_sum` and `typed_product` are modelled as `row_op` and `col_op` (the closed datatype `Schema.Operator`). `calculate` accepts any callable (fake_schema_generator/fake_types/FakeSchemaGenerator.py:209-210), and other callables are not modelled. Examples are `operator.mul` and `operator.add` (example/example_types.py:27-28). Among the lost behaviours, the two-argument `operator.add` raises `TypeError` at `col_op(*col_values)` (line 243) when three or more rows join.
- Dependencies.BuildFieldDependencies: scope entries are keyed by their own `__name__` (`Registry.ValidScope`). A module global that aliases a dataclass under another name, such as `C = Customer` used as `model="C"`, is not modelled. With it, line 149 registers the class as "Customer", but line 137 keeps testing `"C" not in self._models`. So every round finds the alias again, and lines 137-151 recurse until Python's recursion limit. The model's fixed point terminates only because the own-name scope rules this input out.
- Resolvers.Compare: only the six comparisons of Python's `operator` module (`eq`, `ne`, `lt`, `le`, `gt`, `ge`) are modelled. `SchemaCondition.comparison` accepts any callable (fake_schema_generator/fake_types/SchemaCondition.py:9), and other callables are not modelled.
- Engine.Generate: the model builds the graph only when the model-dependency map is empty, as line 246 does. It relies on the state invariant that every graph node's model is a key of that map.

## Findings

| source | as written | input that shows it | evidently intended | confidence | as-written member | corrected member |
|---|---|---|---|---|---|---|
| fake_schema_generator/fake_types/FakeSchemaGenerator.py:230 | finalized rows are kept only when the whole row equals the join value (`r == value`) | `Order` id 1, with a scratch `OrderProduct` line (price 10, quantity 2) and a finalized line (price 5, quantity 1), both with `order_id` 1: `total_amount` is 20 | finalized rows whose join field equals the value are kept too (`getattr(r, field) == value`, as line 228 does), giving 25 | not executed | Resolvers.CalculateAsWritten, Resolvers.OrderTotalAsWritten, Engine.OrderTotalInPass | Resolvers.Calculate, Resolvers.CalculateCandidates, Resolvers.OrderTotalExample |

The generation pass runs `calculate` as the program does, through
`Resolvers.CalculateAsWritten`; `Engine.OrderTotalInPass` shows the effect inside a
pass. `Resolvers.Calculate` is the intended definition, and
`Resolvers.CalculateCandidates` proves that it aggregates every scratch and finalized
row whose join field equals the value.
