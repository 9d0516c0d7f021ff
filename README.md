# exhaustive-deps: a verified model of oxc's React hook dependency rule

This project models the `react-hooks(exhaustive-deps)` lint rule of the oxc
linter (`crates/oxc_linter/src/rules/react_hooks/exhaustive_deps.rs`). The
rule checks calls to `useEffect`, `useLayoutEffect`, `useCallback` and
`useMemo`, bare or as `React.<hook>`, whose first argument is an arrow
function. It reads the dependency array literal in the second argument into
a *declared* set of property chains (`"a"`, `"a.b"`). It walks the callback
body and collects a *found* set of chains read from captured, non-stable
bindings. It then emits one "missing dependency" diagnostic for each found
chain that is neither declared nor rooted at a declared name.

Modules, in the order the rule uses them:

- `Ast` (ast.dfy): the closed syntax union the rule inspects. The semantic
  index is carried on each identifier reference as given fields: the
  global-reference test, the declaration node (kind and scope), and the scope
  of the reference's node (`None` when the reference id is unset).
- `PropertyChain` (property_chain.dfy): `analyze_property_chain`, the same
  chain as a sequence of names, and `split_once`.
- `Hooks` (hooks.dfy): the `HOOKS` set and `func_call_without_react_namespace`.
- `Stability` (stability.dfy): `is_stable_value` and `is_identifier_a_dependency`.
- `Declared` (declared.dfy): `collect_dependencies`.
- `Collector` (collector.dfy): `check_expression` and `check_statement`.
- `ExhaustiveDeps` (exhaustive_deps.dfy): `run`, with the gate, the loop over
  the body and the loop over the set difference.
- `Scenarios` (scenarios.dfy): concrete call sites and what the model proves about them.

The pure parts are functions. The parts that loop are methods: `collect_dependencies`,
`check_expression`, `check_statement` and the two loops of `run`. Each method
is proved equal to a specification function (`DeclaredSet`,
`FoundInExpression`, `FoundInStatement`, `FoundInStatements`, `Diagnostics`).
The properties are lemmas about those functions. The `&mut HashSet<String>`
that the rule threads through its walk becomes a set that each method takes
in and returns. The methods' contracts say it only ever grows, by exactly the
chains of the visited node.

## Where the code and the rule's documented intent differ

The model follows the code. The rule's documented intent, that of the
upstream React rule, differs from the code in these places:

- Deep member reads are never collected. `check_expression` returns when a
  member's object is not a plain identifier, so `props.foo.bar` adds nothing
  (`Collector.DeepChainIsNotCollected`, `Scenarios.DeepReadIsNotReported`).
  Every collected chain is the chain of an identifier read, or of one static
  property of it, found in the callback body (`Collector.FoundIsCapturedReads`,
  `Collector.FoundChainIsShallowRead`).
- Coverage looks at the root segment only. A declared `a.b` does not cover
  `a.b.c`, but a declared `a` covers every `a.x`
  (`ExhaustiveDeps.CoverageIsRootOnly`, `ExhaustiveDeps.CoverageExample`).
- `React.useState` is not a state hook for stability. The callee chain must be
  exactly `"useState"` or `"useReducer"`, so the callee must be a bare
  identifier (`Stability.StableUpdaterNeedsBareCallee`,
  `Scenarios.NamespacedStateUpdaterIsReported`).
- A missing dependency array still yields diagnostics: the declared set is
  empty and every found chain is reported. The same holds for a second
  argument that is a spread or not an array literal. The intent is to skip
  such calls (`ExhaustiveDeps.NoDependencyArrayReportsEveryFoundChain`,
  `Scenarios.MissingArrayStillReports`).
- Every `const` binding is stable. `is_stable_value` returns true for any
  `const` declaration or declarator before looking at its initialiser, so a
  `const` captured from the component is never a dependency. The rule's own
  failing example `const local = someFunc(); useEffect(() => { console.log(local); }, [])`
  therefore gives no diagnostic, and neither does `state` in
  `const [state, setState] = useState(0)` (`Stability.ConstBindingIsNoDependency`,
  `Scenarios.ConstLocalIsNotReported`).
- The scope test is inequality of the declaration's scope and the reference's
  scope, not "the declaring scope is a proper ancestor".
- Optional chaining has no special treatment. `Expression` has no optional
  member variant, and an optional chain counts as an `OtherExpression`.

## Model

| member | source | states |
|---|---|---|
| `Hooks.TrackedHooks` | crates/oxc_linter/src/rules/react_hooks/exhaustive_deps.rs:46-47 | the tracked hooks are exactly useEffect, useLayoutEffect, useCallback and useMemo; useState and useImperativeHandle are not tracked |
| `Hooks.InnerExpression` | crates/oxc_linter/src/rules/react_hooks/exhaustive_deps.rs:302 | the callee seen by the matcher has no transparent wrapper left, and an unwrapped expression is unchanged |
| `Hooks.FuncCallWithoutReactNamespace` | crates/oxc_linter/src/rules/react_hooks/exhaustive_deps.rs:301-323 | a hook name exists only for an identifier callee or a member callee |
| `Hooks.ReactNamespaceIsTransparent` | crates/oxc_linter/src/rules/react_hooks/exhaustive_deps.rs:301-323 | `h(...)`, `React.h(...)` and `(h)(...)` all name hook `h` |
| `Hooks.OtherNamespaceNamesNoHook` | crates/oxc_linter/src/rules/react_hooks/exhaustive_deps.rs:312-322 | a member callee whose object is not an identifier named exactly "React" names no hook |
| `Hooks.ComputedMemberNamesNoHook` | crates/oxc_linter/src/rules/react_hooks/exhaustive_deps.rs:312-314 | a computed member callee names no hook |
| `PropertyChain.StaticPropertyName` | crates/oxc_linter/src/rules/react_hooks/exhaustive_deps.rs:133 | a static member's property name is its static name |
| `PropertyChain.AnalyzePropertyChain` | crates/oxc_linter/src/rules/react_hooks/exhaustive_deps.rs:126-141 | only identifiers and member expressions have a chain |
| `PropertyChain.ChainIsJoinedSegments` | crates/oxc_linter/src/rules/react_hooks/exhaustive_deps.rs:126-141 | the chain string exists exactly when the segment sequence exists, and it is those segments joined with "." |
| `PropertyChain.SegmentsShape` | crates/oxc_linter/src/rules/react_hooks/exhaustive_deps.rs:126-141 | a chain exists iff the innermost object is an identifier and every level has a static name; it starts with the root's name and has one more segment per member level |
| `PropertyChain.SplitOnce` | crates/oxc_linter/src/rules/react_hooks/exhaustive_deps.rs:79 | there is a split iff the separator occurs; the split is before + separator + after, with no separator before |
| `PropertyChain.SplitOnceUnique` | crates/oxc_linter/src/rules/react_hooks/exhaustive_deps.rs:79 | any split at a first separator is the one split_once returns |
| `PropertyChain.JoinHead` | crates/oxc_linter/src/rules/react_hooks/exhaustive_deps.rs:130-134 | a chain of two or more names is its first name, ".", and the rest |
| `PropertyChain.RootSegmentOfChain` | crates/oxc_linter/src/rules/react_hooks/exhaustive_deps.rs:79-83 | for a member chain whose root name has no ".", the text before the first "." is the root identifier's name |
| `Stability.IsStableValue` | crates/oxc_linter/src/rules/react_hooks/exhaustive_deps.rs:242-297 | const declarations and declarators are stable; a non-const declarator is stable iff it is `[_, name] = useState/useReducer(...)` with element 1 a plain binding of the queried name; parameters and other nodes never are |
| `Stability.MemberChainHasDot` | crates/oxc_linter/src/rules/react_hooks/exhaustive_deps.rs:130-134 | every member chain contains a "." |
| `Stability.StableUpdaterNeedsBareCallee` | crates/oxc_linter/src/rules/react_hooks/exhaustive_deps.rs:276-281 | a stable non-const binding always comes from a bare `useState`/`useReducer` callee, so `React.useState` never makes one stable |
| `Stability.StateUpdaterExample` | crates/oxc_linter/src/rules/react_hooks/exhaustive_deps.rs:278-281 | in `let [count, setCount] = useState(...)` the updater is stable and the state value is not |
| `Stability.IsIdentifierADependency` | crates/oxc_linter/src/rules/react_hooks/exhaustive_deps.rs:211-239 | false for a global, a missing declaration, a stable declaration, an unset reference id, or equal scopes; true otherwise |
| `Stability.LocalBindingIsNoDependency` | crates/oxc_linter/src/rules/react_hooks/exhaustive_deps.rs:234-236 | a binding read in its own declaring scope is never a dependency |
| `Stability.ConstBindingIsNoDependency` | crates/oxc_linter/src/rules/react_hooks/exhaustive_deps.rs:242-258 | a reference to any `const` declaration or declarator is never a dependency |
| `Stability.OuterParameterIsDependency` | crates/oxc_linter/src/rules/react_hooks/exhaustive_deps.rs:291 | a non-global parameter read from another scope is always a dependency |
| `Declared.ChainsOfMembership` | crates/oxc_linter/src/rules/react_hooks/exhaustive_deps.rs:106-119 | a chain is declared iff some element is an expression with that chain; holes, spreads and unanalysable elements add nothing |
| `Declared.DuplicateCollapses` | crates/oxc_linter/src/rules/react_hooks/exhaustive_deps.rs:104-111 | repeating an element adds no chain |
| `Declared.CollectDependencies` | crates/oxc_linter/src/rules/react_hooks/exhaustive_deps.rs:97-123 | the loop returns exactly the declared set; a spread or non-array argument gives the empty set |
| `Collector.CheckExpression` | crates/oxc_linter/src/rules/react_hooks/exhaustive_deps.rs:155-209 | the result is the input set plus exactly the chains of the expression: nothing is removed; calls, arrays, identifiers and members are examined; other kinds add nothing |
| `Collector.CheckStatement` | crates/oxc_linter/src/rules/react_hooks/exhaustive_deps.rs:143-153 | only an expression statement adds chains |
| `Collector.FoundIsCapturedReads` | crates/oxc_linter/src/rules/react_hooks/exhaustive_deps.rs:155-205 | the walk of an expression collects exactly the chains of its identifier and one-property member reads whose identifier passes the capture filter |
| `Collector.FoundInArgumentsIsCapturedReads` | crates/oxc_linter/src/rules/react_hooks/exhaustive_deps.rs:160-168 | the same for a call's first n arguments |
| `Collector.FoundInElementsIsCapturedReads` | crates/oxc_linter/src/rules/react_hooks/exhaustive_deps.rs:191-205 | the same for an array's first n elements |
| `Collector.FoundInStatementsIsCapturedReads` | crates/oxc_linter/src/rules/react_hooks/exhaustive_deps.rs:70-72 | the same for a whole callback body |
| `Collector.FoundChainIsShallowRead` | crates/oxc_linter/src/rules/react_hooks/exhaustive_deps.rs:173-191 | a chain collected from a body is the chain of a read in that body that passes the capture filter; when the names read have no ".", it has at most one "." |
| `Collector.FoundInStatementsAppend` | crates/oxc_linter/src/rules/react_hooks/exhaustive_deps.rs:67-72 | the body's found set is the union over its statements |
| `Collector.DeepChainIsNotCollected` | crates/oxc_linter/src/rules/react_hooks/exhaustive_deps.rs:179-182 | a member whose object is not an identifier adds nothing |
| `ExhaustiveDeps.Gate` | crates/oxc_linter/src/rules/react_hooks/exhaustive_deps.rs:51-56 | a node passes the gate exactly when it is a call whose name is a tracked hook and whose argument 0 is an arrow function; the site then holds that name, the call and the arrow's body |
| `ExhaustiveDeps.GateConverse` | crates/oxc_linter/src/rules/react_hooks/exhaustive_deps.rs:51-56 | every call to a tracked hook with an arrow argument 0 passes the gate, whatever its other arguments |
| `ExhaustiveDeps.ReportStep` | crates/oxc_linter/src/rules/react_hooks/exhaustive_deps.rs:77-89 | one more undeclared chain adds its own diagnostic unless its root is declared |
| `ExhaustiveDeps.ReportUndeclared` | crates/oxc_linter/src/rules/react_hooks/exhaustive_deps.rs:76-90 | the loop over the difference emits exactly one diagnostic per uncovered undeclared chain |
| `ExhaustiveDeps.CheckBody` | crates/oxc_linter/src/rules/react_hooks/exhaustive_deps.rs:66-72 | the loop over the body builds exactly the body's found set |
| `ExhaustiveDeps.Run` | crates/oxc_linter/src/rules/react_hooks/exhaustive_deps.rs:50-95 | the rule emits exactly `Diagnostics(node)` |
| `ExhaustiveDeps.CoveredByRootIff` | crates/oxc_linter/src/rules/react_hooks/exhaustive_deps.rs:79-83 | the split_once test holds iff the text before the first "." is declared |
| `ExhaustiveDeps.DiagnosticsCharacterization` | crates/oxc_linter/src/rules/react_hooks/exhaustive_deps.rs:76-90 | a diagnostic is emitted iff its chain is found, not declared, and its root segment not declared; it carries the hook name and the call span |
| `ExhaustiveDeps.UngatedNodeReportsNothing` | crates/oxc_linter/src/rules/react_hooks/exhaustive_deps.rs:51-56 | a node outside the gate gets no diagnostic |
| `ExhaustiveDeps.NonHookCallReportsNothing` | crates/oxc_linter/src/rules/react_hooks/exhaustive_deps.rs:52-56 | an untracked callee, a missing or spread argument 0, or a non-arrow callback gives no diagnostic |
| `ExhaustiveDeps.ExactMatchReportsNothing` | crates/oxc_linter/src/rules/react_hooks/exhaustive_deps.rs:76-90 | found ⊆ declared gives no diagnostic |
| `ExhaustiveDeps.CoveredFoundReportsNothing` | crates/oxc_linter/src/rules/react_hooks/exhaustive_deps.rs:76-83 | when every found chain is declared or covered by a declared root, no diagnostic is emitted |
| `ExhaustiveDeps.MoreDeclaredReportsLess` | crates/oxc_linter/src/rules/react_hooks/exhaustive_deps.rs:76-83 | declaring more chains never adds a diagnostic |
| `ExhaustiveDeps.OneDiagnosticPerChain` | crates/oxc_linter/src/rules/react_hooks/exhaustive_deps.rs:77-89 | two diagnostics naming the same chain are the same diagnostic |
| `ExhaustiveDeps.DiagnosticCount` | crates/oxc_linter/src/rules/react_hooks/exhaustive_deps.rs:76-90 | the number of diagnostics equals the number of reported chains and is at most the size of the found set |
| `ExhaustiveDeps.NoDependencyArrayReportsEveryFoundChain` | crates/oxc_linter/src/rules/react_hooks/exhaustive_deps.rs:58-62 | with no usable dependency array every found chain is reported |
| `ExhaustiveDeps.ReportedChainsAreCapturedReads` | crates/oxc_linter/src/rules/react_hooks/exhaustive_deps.rs:76-90 | every reported chain is the chain of a read in the callback body that passes the capture filter, and a dotless root identifier of it is not declared |
| `ExhaustiveDeps.DotlessChainIsNeverCovered` | crates/oxc_linter/src/rules/react_hooks/exhaustive_deps.rs:79-83 | a chain without "." is never covered by a root segment |
| `ExhaustiveDeps.CoverageIsRootOnly` | crates/oxc_linter/src/rules/react_hooks/exhaustive_deps.rs:79-83 | for every root `a` without "." and every `x`, `a.x` is covered exactly when `a` is declared |
| `ExhaustiveDeps.CoverageExample` | crates/oxc_linter/src/rules/react_hooks/exhaustive_deps.rs:79-83 | declared `a.b` does not cover `a.b.c`; declared `a` does |
| `ExhaustiveDeps.MemberChainCoveredByRoot` | crates/oxc_linter/src/rules/react_hooks/exhaustive_deps.rs:79-83 | an analysable member chain whose root identifier's name has no "." is covered exactly when that name is declared |
| `Scenarios.ReadNotDeclaredIsReported` | crates/oxc_linter/src/rules/react_hooks/exhaustive_deps.rs:76-90 | `useEffect(() => { console.log(props.foo) }, [])` reports exactly `props.foo` |
| `Scenarios.NamespacedHookIsChecked` | crates/oxc_linter/src/rules/react_hooks/exhaustive_deps.rs:318-320 | the same call through `React.useEffect` reports the same |
| `Scenarios.MissingArrayStillReports` | crates/oxc_linter/src/rules/react_hooks/exhaustive_deps.rs:58-62 | without a dependency array the read is still reported |
| `Scenarios.DeclaredRootCoversMember` | crates/oxc_linter/src/rules/react_hooks/exhaustive_deps.rs:79-83 | `[props]` covers the read `props.foo` |
| `Scenarios.DeepReadIsNotReported` | crates/oxc_linter/src/rules/react_hooks/exhaustive_deps.rs:179-182 | a read of `props.foo.bar` draws no diagnostic even with `[]` |
| `Scenarios.ConstLocalIsNotReported` | crates/oxc_linter/src/rules/react_hooks/exhaustive_deps.rs:1294-1299 | `const local = someFunc(); useEffect(() => { console.log(local) }, [])` reports nothing |
| `Scenarios.LocalBindingIsNotReported` | crates/oxc_linter/src/rules/react_hooks/exhaustive_deps.rs:234-236 | a binding declared in the callback's own scope is not reported |
| `Scenarios.StateUpdaterIsNotReported` | crates/oxc_linter/src/rules/react_hooks/exhaustive_deps.rs:276-281 | with `let [count, setCount] = useState(0)`, `setCount(count)` reports only `count` |
| `Scenarios.NamespacedStateUpdaterIsReported` | crates/oxc_linter/src/rules/react_hooks/exhaustive_deps.rs:276-279 | with `React.useState` the updater `setCount` is reported too |

## Left out

- The semantic layer (`is_reference_to_global_variable`, `get_declaration_of_variable`, `get_reference`, `get_node`, `scope_id`) is external. Its answers are given fields on each identifier reference, so the model does not check that they agree with each other.
- `get_inner_expression` is not part of this model. The wrappers it removes are one `Wrapped` variant, and the exact list of wrapper node kinds is not modelled.
- `static_property_name` is not part of this model. A computed member carries its result as a given field.
- `get_identifier_reference` on the `React` object is not part of this model. The object is taken to be an identifier node itself.
- The diagnostic's text, severity, help and label (the miette/thiserror derive) are left out, as is the `declare_oxc_lint!` registration. A diagnostic is the hook name, the chain and the span.
- The diagnostics are a set, so the order they are emitted in (HashSet iteration order) is not modelled.
- The `dbg!` and `println!` side effects are left out. They print only and do not steer the rule.
- The JavaScript fixtures in the file's `test()` function are not modelled. They need a parser and semantic analysis. Many of them also expect upstream React behaviour that this code lacks (deep prefix coverage, optional-chain equivalence, `useImperativeHandle`).
- crates/oxc_linter/src/rules/typescript/no_unused_vars.rs is not part of this model. It is another rule, made only of queries to the semantic index.
- Rust strings are UTF-8 bytes and the model's are sequences of characters. The rule only concatenates, compares and splits on ".", which works the same either way.
