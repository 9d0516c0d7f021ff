/**
 * Stability classification and the capture filter: `is_stable_value`
 * decides from a declaration node whether the binding's identity can never
 * change, and `is_identifier_a_dependency` decides whether a reference read
 * in a hook callback must be declared.
 */
module Stability {
  import opened Wrappers
  import opened Ast
  import opened PropertyChain

  /** The callee chains whose second destructured result is a stable updater. */
  predicate IsStateHookChain(chain: string) {
    chain == "useState" || chain == "useReducer"
  }

  /**
   * `let [x, setX] = useState(...)` (or `useReducer`): the second element of
   * the array pattern is a plain binding named `name`, and the initializer is
   * a call whose callee chain is exactly a state hook.
   */
  predicate IsStateUpdaterBinding(id: BindingPattern, init: Option<Expression>, name: string) {
    && init.Some? && init.value.Call?
    && id.ArrayPattern? && |id.elements| > 1
    && id.elements[1].Some? && id.elements[1].value.BindingIdentifier?
    && id.elements[1].value.name == name
    && AnalyzePropertyChain(init.value.call.callee).Some?
    && IsStateHookChain(AnalyzePropertyChain(init.value.call.callee).value)
  }

  /** `is_stable_value`, checking the conditions in the order the rule does. */
  function IsStableValue(node: DeclarationKind, name: string): (r: bool)
    ensures node.VariableDeclarator? && node.kind != Const ==> (r <==> IsStateUpdaterBinding(node.id, node.init, name))
    ensures node.FormalParameter? || node.OtherDeclaration? ==> !r
    ensures (node.VariableDeclaration? || node.VariableDeclarator?) && node.kind == Const ==> r
  {
    match node
    case VariableDeclaration(kind) => kind == Const
    case VariableDeclarator(kind, id, init) =>
      if kind == Const then true
      else if init.None? || !init.value.Call? then false
      else if !id.ArrayPattern? then false
      else if |id.elements| < 2 || id.elements[1].None? then false
      else if !id.elements[1].value.BindingIdentifier? then false
      else
        (match AnalyzePropertyChain(init.value.call.callee)
         case None => false
         case Some(initName) => IsStateHookChain(initName) && id.elements[1].value.name == name)
    case FormalParameter => false
    case OtherDeclaration => false
  }

  /** Every member chain contains a ".". */
  lemma {:induction false} MemberChainHasDot(e: Expression)
    requires e.Member? && AnalyzePropertyChain(e).Some?
    ensures '.' in AnalyzePropertyChain(e).value
  {
    var chain := AnalyzePropertyChain(e.obj).value;
    var whole := AnalyzePropertyChain(e).value;
    assert whole[|chain|] == '.';
  }

  /**
   * A non-const binding is stable only through a bare `useState`/`useReducer`
   * callee: a namespaced callee such as `React.useState` never qualifies.
   */
  lemma StableUpdaterNeedsBareCallee(kind: VariableDeclarationKind, id: BindingPattern, init: Option<Expression>, name: string)
    requires kind != Const
    requires IsStableValue(VariableDeclarator(kind, id, init), name)
    ensures init.Some? && init.value.Call? && init.value.call.callee.Identifier?
    ensures IsStateHookChain(init.value.call.callee.ident.name)
  {
    var callee := init.value.call.callee;
    if callee.Member? {
      MemberChainHasDot(callee);
      assert false;
    }
  }

  /** `let [count, setCount] = useState(0)`: the updater is stable, the state value is not. */
  lemma StateUpdaterExample(hook: IdentifierReference, arguments: seq<Argument>, span: Span)
    requires hook.name == "useState"
    ensures var decl := VariableDeclarator(Let, ArrayPattern([Some(BindingIdentifier("count")), Some(BindingIdentifier("setCount"))]),
                                           Some(Call(CallExpression(Identifier(hook), arguments, span))));
            IsStableValue(decl, "setCount") && !IsStableValue(decl, "count")
  {
  }

  /** `is_identifier_a_dependency`: a captured, non-stable binding from another scope. */
  function IsIdentifierADependency(ident: IdentifierReference): (r: bool)
    ensures r <==>
      && !ident.isGlobal
      && ident.declaration.Some?
      && !IsStableValue(ident.declaration.value.kind, ident.name)
      && ident.referenceScope.Some?
      && ident.declaration.value.scope != ident.referenceScope.value
  {
    if ident.isGlobal then false
    else
      match ident.declaration
      case None => false
      case Some(declaration) =>
        if IsStableValue(declaration.kind, ident.name) then false
        else
          match ident.referenceScope
          case None => false
          case Some(scope) => declaration.scope != scope
  }

  /** A binding declared in the scope where it is read (a local of the callback) is never a dependency. */
  lemma LocalBindingIsNoDependency(ident: IdentifierReference)
    requires ident.declaration.Some? && ident.referenceScope == Some(ident.declaration.value.scope)
    ensures !IsIdentifierADependency(ident)
  {
  }

  /**
   * A `const` binding is never a dependency, whatever its initialiser, because
   * every `const` declaration or declarator counts as stable.
   */
  lemma ConstBindingIsNoDependency(ident: IdentifierReference)
    requires ident.declaration.Some?
    requires ident.declaration.value.kind.VariableDeclaration? || ident.declaration.value.kind.VariableDeclarator?
    requires ident.declaration.value.kind.kind == Const
    ensures !IsIdentifierADependency(ident)
  {
  }

  /** A function parameter read from an inner scope is always a dependency unless it is global. */
  lemma OuterParameterIsDependency(ident: IdentifierReference)
    requires !ident.isGlobal
    requires ident.declaration.Some? && ident.declaration.value.kind == FormalParameter
    requires ident.referenceScope.Some? && ident.referenceScope.value != ident.declaration.value.scope
    ensures IsIdentifierADependency(ident)
  {
  }
}
