/**
 * Concrete call sites and what the model proves about them. Every reference is read in the
 * callback's scope 1; the component's bindings live in scope 0.
 */
module Scenarios {
  import opened Wrappers
  import opened Ast
  import opened PropertyChain
  import opened Stability
  import opened Declared
  import opened Collector
  import opened ExhaustiveDeps

  const CallSpan := Span(10, 80)

  /** `props`, a parameter of the enclosing component. */
  const PropsRef := IdentifierReference("props", false, Some(DeclarationNode(FormalParameter, 0)), Some(1))

  /** `console`, a global. */
  const ConsoleRef := IdentifierReference("console", true, None, Some(1))

  /** The hook callee's own identifier; its semantic answers play no part. */
  function HookRef(name: string): IdentifierReference {
    IdentifierReference(name, false, None, None)
  }

  /** `console.log(arg);` */
  function Log(arg: Expression): Statement {
    ExpressionStatement(Call(CallExpression(Member(Identifier(ConsoleRef), Static("log")), [ExpressionArgument(arg)], Span(20, 40))))
  }

  /** `hook(() => { body }, ...deps)` at `CallSpan`. */
  function HookCall(callee: Expression, body: seq<Statement>, deps: seq<Argument>): AstKind {
    CallExpressionKind(CallExpression(callee, [ExpressionArgument(ArrowFunction(body))] + deps, CallSpan))
  }

  /** The dependency array literal `[e1, e2, ...]`. */
  function DepsArray(elements: seq<ArrayElement>): Argument {
    ExpressionArgument(Array(ArrayExpression(elements)))
  }

  const PropsFoo := Member(Identifier(PropsRef), Static("foo"))

  /** `console.log(arg)` collects what `arg` collects: `console` is global. */
  lemma LogCollectsArgument(arg: Expression)
    ensures FoundInStatements([Log(arg)]) == FoundInExpression(arg)
  {
    var call := CallExpression(Member(Identifier(ConsoleRef), Static("log")), [ExpressionArgument(arg)], Span(20, 40));
    assert !IsIdentifierADependency(ConsoleRef);
    assert FoundInExpression(call.callee) == {};
    assert FoundInArguments(call, 1) == FoundInExpression(arg);
    assert [Log(arg)][..0] == [];
  }

  lemma PropsFooCollected()
    ensures FoundInExpression(PropsFoo) == {"props.foo"}
  {
    assert IsIdentifierADependency(PropsRef);
    assert AnalyzePropertyChain(Identifier(PropsRef)) == Some("props");
    assert "props" + "." + "foo" == "props.foo";
    assert AnalyzePropertyChain(PropsFoo) == Some("props.foo");
  }

  /** `useEffect(() => { console.log(props.foo) }, [])` reports `props.foo`. */
  lemma ReadNotDeclaredIsReported()
    ensures Diagnostics(HookCall(Identifier(HookRef("useEffect")), [Log(PropsFoo)], [DepsArray([])]))
         == {MissingDependency("useEffect", "props.foo", CallSpan)}
  {
    var node := HookCall(Identifier(HookRef("useEffect")), [Log(PropsFoo)], [DepsArray([])]);
    var site := Gate(node).value;
    LogCollectsArgument(PropsFoo);
    PropsFooCollected();
    assert FoundInStatements(site.body) == {"props.foo"};
    assert DeclaredOf(site.call) == {};
    assert !CoveredByRoot("props.foo", {});
  }

  /** `React.useEffect(...)` is checked exactly as `useEffect(...)`. */
  lemma NamespacedHookIsChecked()
    ensures Diagnostics(HookCall(Member(Identifier(HookRef("React")), Static("useEffect")), [Log(PropsFoo)], [DepsArray([])]))
         == {MissingDependency("useEffect", "props.foo", CallSpan)}
  {
    var node := HookCall(Member(Identifier(HookRef("React")), Static("useEffect")), [Log(PropsFoo)], [DepsArray([])]);
    var site := Gate(node).value;
    LogCollectsArgument(PropsFoo);
    PropsFooCollected();
    assert FoundInStatements(site.body) == {"props.foo"};
    assert DeclaredOf(site.call) == {};
    assert !CoveredByRoot("props.foo", {});
  }

  /** Without a dependency array the read is still reported. */
  lemma MissingArrayStillReports()
    ensures Diagnostics(HookCall(Identifier(HookRef("useEffect")), [Log(PropsFoo)], []))
         == {MissingDependency("useEffect", "props.foo", CallSpan)}
  {
    var node := HookCall(Identifier(HookRef("useEffect")), [Log(PropsFoo)], []);
    var site := Gate(node).value;
    LogCollectsArgument(PropsFoo);
    PropsFooCollected();
    assert FoundInStatements(site.body) == {"props.foo"};
    assert DeclaredOf(site.call) == {};
    assert !CoveredByRoot("props.foo", {});
  }

  lemma PropsDeclared()
    ensures DeclaredSet(DepsArray([ExpressionElement(Identifier(PropsRef))])) == {"props"}
  {
    var elements := [ExpressionElement(Identifier(PropsRef))];
    assert elements[..0] == [];
    assert ChainsOf(elements[..0]) == {};
    assert AnalyzePropertyChain(Identifier(PropsRef)) == Some("props");
    assert ChainsOf(elements) == {"props"};
  }

  /** `[props]` covers the read `props.foo` through its root segment. */
  lemma DeclaredRootCoversMember()
    ensures Diagnostics(HookCall(Identifier(HookRef("useEffect")), [Log(PropsFoo)], [DepsArray([ExpressionElement(Identifier(PropsRef))])])) == {}
  {
    var node := HookCall(Identifier(HookRef("useEffect")), [Log(PropsFoo)], [DepsArray([ExpressionElement(Identifier(PropsRef))])]);
    var site := Gate(node).value;
    assert site.body == [Log(PropsFoo)];
    assert site.call.arguments[1] == DepsArray([ExpressionElement(Identifier(PropsRef))]);
    LogCollectsArgument(PropsFoo);
    PropsFooCollected();
    PropsDeclared();
    assert "props" + "." + "foo" == "props.foo";
    CoverageIsRootOnly("props", "foo", {"props"});
    CoveredFoundReportsNothing(node);
  }

  /** A read of `props.foo.bar` collects nothing, so even `[]` draws no diagnostic. */
  lemma DeepReadIsNotReported()
    ensures Diagnostics(HookCall(Identifier(HookRef("useEffect")), [Log(Member(PropsFoo, Static("bar")))], [DepsArray([])])) == {}
  {
    var node := HookCall(Identifier(HookRef("useEffect")), [Log(Member(PropsFoo, Static("bar")))], [DepsArray([])]);
    LogCollectsArgument(Member(PropsFoo, Static("bar")));
    ExactMatchReportsNothing(node);
  }

  /** A `let props` declared inside the callback, in scope 1. */
  const LocalProps := IdentifierReference("props", false, Some(DeclarationNode(VariableDeclarator(Let, BindingIdentifier("props"), None), 1)), Some(1))

  /** A binding declared in the callback's own scope is never reported. */
  lemma LocalBindingIsNotReported()
    ensures Diagnostics(HookCall(Identifier(HookRef("useEffect")), [Log(Identifier(LocalProps))], [])) == {}
  {
    var local := LocalProps;
    var node := HookCall(Identifier(HookRef("useEffect")), [Log(Identifier(local))], []);
    LogCollectsArgument(Identifier(local));
    ExactMatchReportsNothing(node);
  }

  /** `const local = someFunc();` in the component's scope, read from the callback's scope. */
  const ConstLocal := IdentifierReference("local", false,
    Some(DeclarationNode(VariableDeclarator(Const, BindingIdentifier("local"),
      Some(Call(CallExpression(Identifier(HookRef("someFunc")), [], Span(0, 10))))), 0)), Some(1))

  /** `useEffect(() => { console.log(local) }, [])` with a `const local` reports nothing. */
  lemma ConstLocalIsNotReported()
    ensures Diagnostics(HookCall(Identifier(HookRef("useEffect")), [Log(Identifier(ConstLocal))], [DepsArray([])])) == {}
  {
    var node := HookCall(Identifier(HookRef("useEffect")), [Log(Identifier(ConstLocal))], [DepsArray([])]);
    LogCollectsArgument(Identifier(ConstLocal));
    ExactMatchReportsNothing(node);
  }

  const BareUseState := Identifier(HookRef("useState"))
  const ReactUseState := Member(Identifier(HookRef("React")), Static("useState"))

  /** `let [count, setCount] = stateHook(0)` in the component's scope, read from the callback's scope. */
  function StateRef(name: string, stateHook: Expression): IdentifierReference {
    var declarator := VariableDeclarator(Let,
      ArrayPattern([Some(BindingIdentifier("count")), Some(BindingIdentifier("setCount"))]),
      Some(Call(CallExpression(stateHook, [], Span(0, 5)))));
    IdentifierReference(name, false, Some(DeclarationNode(declarator, 0)), Some(1))
  }

  /** `setCount(count);` */
  function SetCountOfCount(stateHook: Expression): Statement {
    ExpressionStatement(Call(CallExpression(Identifier(StateRef("setCount", stateHook)),
      [ExpressionArgument(Identifier(StateRef("count", stateHook)))], Span(20, 40))))
  }

  lemma SetCountOfCountCollects(stateHook: Expression)
    ensures FoundInStatements([SetCountOfCount(stateHook)]) ==
      (if IsIdentifierADependency(StateRef("setCount", stateHook)) then {"setCount"} else {}) + {"count"}
  {
    var call := SetCountOfCount(stateHook).expression.call;
    assert FoundInExpression(call.callee) ==
      (if IsIdentifierADependency(StateRef("setCount", stateHook)) then {"setCount"} else {});
    assert FoundInArguments(call, 1) == FoundInExpression(Identifier(StateRef("count", stateHook)));
    assert !IsStableValue(StateRef("count", stateHook).declaration.value.kind, "count");
    assert [SetCountOfCount(stateHook)][..0] == [];
  }

  /** With a bare `useState` the updater is stable: only the state value is reported. */
  lemma StateUpdaterIsNotReported()
    ensures Diagnostics(HookCall(Identifier(HookRef("useEffect")), [SetCountOfCount(BareUseState)], [DepsArray([])]))
         == {MissingDependency("useEffect", "count", CallSpan)}
  {
    var useState := BareUseState;
    var node := HookCall(Identifier(HookRef("useEffect")), [SetCountOfCount(useState)], [DepsArray([])]);
    var site := Gate(node).value;
    SetCountOfCountCollects(useState);
    assert IsStableValue(StateRef("setCount", useState).declaration.value.kind, "setCount");
    assert FoundInStatements(site.body) == {"count"};
    assert DeclaredOf(site.call) == {};
    assert !CoveredByRoot("count", {});
  }

  /** With `React.useState` the updater is not recognised as stable and is reported too. */
  lemma NamespacedStateUpdaterIsReported()
    ensures MissingDependency("useEffect", "setCount", CallSpan) in
              Diagnostics(HookCall(Identifier(HookRef("useEffect")), [SetCountOfCount(ReactUseState)], [DepsArray([])]))
  {
    var useState := ReactUseState;
    var node := HookCall(Identifier(HookRef("useEffect")), [SetCountOfCount(useState)], [DepsArray([])]);
    var site := Gate(node).value;
    SetCountOfCountCollects(useState);
    assert AnalyzePropertyChain(Identifier(HookRef("React"))) == Some("React");
    assert "React" + "." + "useState" == "React.useState";
    assert AnalyzePropertyChain(useState) == Some("React.useState");
    assert !IsStableValue(StateRef("setCount", useState).declaration.value.kind, "setCount");
    assert "setCount" in FoundInStatements(site.body);
    assert DeclaredOf(site.call) == {};
    assert !CoveredByRoot("setCount", {});
    DiagnosticsCharacterization(node, MissingDependency("useEffect", "setCount", CallSpan));
  }
}
