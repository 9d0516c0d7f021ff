/**
 * Hook-name matching: the fixed set of hooks the rule tracks and
 * `func_call_without_react_namespace`, which names the hook a call invokes,
 * bare (`useEffect(...)`) or through the `React` namespace
 * (`React.useEffect(...)`).
 */
module Hooks {
  import opened Wrappers
  import opened Ast

  /** The hooks whose callback is checked. */
  const HOOKS: set<string> := {"useEffect", "useLayoutEffect", "useCallback", "useMemo"}

  /** `get_inner_expression`: the expression under any transparent wrappers. */
  function InnerExpression(e: Expression): (r: Expression)
    ensures !r.Wrapped?
    ensures !e.Wrapped? ==> r == e
  {
    if e.Wrapped? then InnerExpression(e.inner) else e
  }

  /** `func_call_without_react_namespace`: the callee's name, ignoring a `React.` qualifier. */
  function FuncCallWithoutReactNamespace(call: CallExpression): (r: Option<string>)
    ensures r.Some? ==> InnerExpression(call.callee).Identifier? || InnerExpression(call.callee).Member?
  {
    var inner := InnerExpression(call.callee);
    if inner.Identifier? then
      Some(inner.ident.name)
    else if inner.Member? && inner.property.Static? && inner.obj.Identifier? && inner.obj.ident.name == "React" then
      Some(inner.property.name)
    else
      None
  }

  /** A bare call and a `React.`-qualified call name the same hook, wrappers or not. */
  lemma ReactNamespaceIsTransparent(x: IdentifierReference, react: IdentifierReference, arguments: seq<Argument>, span: Span)
    requires react.name == "React"
    ensures FuncCallWithoutReactNamespace(CallExpression(Identifier(x), arguments, span)) == Some(x.name)
    ensures FuncCallWithoutReactNamespace(CallExpression(Member(Identifier(react), Static(x.name)), arguments, span)) == Some(x.name)
    ensures FuncCallWithoutReactNamespace(CallExpression(Wrapped(Identifier(x)), arguments, span)) == Some(x.name)
  {
  }

  /** A member callee on any object other than an identifier named exactly "React" names no hook. */
  lemma OtherNamespaceNamesNoHook(callee: Expression, arguments: seq<Argument>, span: Span)
    requires InnerExpression(callee).Member?
    requires !InnerExpression(callee).obj.Identifier? || InnerExpression(callee).obj.ident.name != "React"
    ensures FuncCallWithoutReactNamespace(CallExpression(callee, arguments, span)) == None
  {
  }

  /** Computed access `React["useEffect"]` is not matched: only static members are. */
  lemma ComputedMemberNamesNoHook(callee: Expression, arguments: seq<Argument>, span: Span)
    requires InnerExpression(callee).Member? && InnerExpression(callee).property.Computed?
    ensures FuncCallWithoutReactNamespace(CallExpression(callee, arguments, span)) == None
  {
  }

  /** The tracked hooks are exactly four names, and `useState` is not one of them. */
  lemma TrackedHooks(name: string)
    ensures name in HOOKS <==> name == "useEffect" || name == "useLayoutEffect" || name == "useCallback" || name == "useMemo"
    ensures "useState" !in HOOKS && "useImperativeHandle" !in HOOKS
  {
  }
}
