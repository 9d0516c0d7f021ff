/**
 * The part of the JavaScript syntax tree that the exhaustive-deps rule
 * inspects, as a closed union. Every node kind the rule does not look into
 * is one opaque variant (`OtherExpression`, `OtherStatement`, ...).
 *
 * The semantic index the rule consults (global-reference test, declaration
 * lookup, scope of the declaration, reference id and scope of the reference
 * node) is carried on each identifier reference as given fields.
 */
module Ast {
  import opened Wrappers

  type ScopeId = nat

  /** Source location of a node, as byte offsets. */
  datatype Span = Span(start: nat, end: nat)

  datatype VariableDeclarationKind = Var | Let | Const

  /** A binding pattern; `ArrayPattern` elements may be holes (`None`). */
  datatype BindingPattern =
    | BindingIdentifier(name: string)
    | ArrayPattern(elements: seq<Option<BindingPattern>>)
    | OtherPattern

  /** The kind of the AST node that declares a variable. */
  datatype DeclarationKind =
    | VariableDeclaration(kind: VariableDeclarationKind)
    | VariableDeclarator(kind: VariableDeclarationKind, id: BindingPattern, init: Option<Expression>)
    | FormalParameter
    | OtherDeclaration

  /** A declaration node as returned by the declaration lookup: its kind and its scope. */
  datatype DeclarationNode = DeclarationNode(kind: DeclarationKind, scope: ScopeId)

  /**
   * An identifier reference with the answers of the semantic index:
   * `isGlobal` is the global-reference test, `declaration` the declaration
   * lookup, and `referenceScope` the scope of the node the reference id
   * points to (`None` when the reference id is unset).
   */
  datatype IdentifierReference = IdentifierReference(
    name: string,
    isGlobal: bool,
    declaration: Option<DeclarationNode>,
    referenceScope: Option<ScopeId>)

  /**
   * The property of a member expression. A static member `o.p` has its name;
   * every other member (computed `o[e]`, private `o.#p`) carries the result
   * of `static_property_name`, which is a name only for literal keys.
   */
  datatype Property =
    | Static(name: string)
    | Computed(staticName: Option<string>)

  datatype Expression =
    | Identifier(ident: IdentifierReference)
    | Member(obj: Expression, property: Property)
    | Call(call: CallExpression)
    | Array(arr: ArrayExpression)
    | ArrowFunction(body: seq<Statement>)
    /** A transparent wrapper (parentheses, type assertion) that `get_inner_expression` removes. */
    | Wrapped(inner: Expression)
    | OtherExpression

  datatype CallExpression = CallExpression(callee: Expression, arguments: seq<Argument>, span: Span)

  datatype Argument = SpreadArgument | ExpressionArgument(expr: Expression)

  datatype ArrayExpression = ArrayExpression(elements: seq<ArrayElement>)

  datatype ArrayElement = SpreadElement | Hole | ExpressionElement(expr: Expression)

  /** Statements; an expression-bodied arrow has one `ExpressionStatement` as its body. */
  datatype Statement = ExpressionStatement(expression: Expression) | OtherStatement

  /** The node the rule is run on. */
  datatype AstKind = CallExpressionKind(call: CallExpression) | OtherKind
}
