/**
 * The capture collector: `check_statement` and `check_expression` walk a
 * hook callback's body and add to the found set every chain read from a
 * captured, non-stable binding. `FoundInExpression` and its companions are
 * the set a walk adds; the methods thread the set through the walk as the
 * rule does and are proved to add exactly that.
 */
module Collector {
  import opened Wrappers
  import opened Ast
  import opened PropertyChain
  import opened Stability

  /** The chains the walk collects from an expression. */
  function FoundInExpression(e: Expression): set<string>
    decreases e
  {
    match e
    case Call(call) => FoundInExpression(call.callee) + FoundInArguments(call, |call.arguments|)
    case Identifier(ident) => if IsIdentifierADependency(ident) then {ident.name} else {}
    case Member(obj, _) =>
      if obj.Identifier? && IsIdentifierADependency(obj.ident) && AnalyzePropertyChain(e).Some?
      then {AnalyzePropertyChain(e).value}
      else {}
    case Array(arr) => FoundInElements(arr, |arr.elements|)
    case _ => {}
  }

  /** The chains collected from the first `n` arguments of a call; spreads are skipped. */
  function FoundInArguments(call: CallExpression, n: nat): set<string>
    requires n <= |call.arguments|
    decreases call, n
  {
    if n == 0 then {}
    else
      FoundInArguments(call, n - 1) +
      (match call.arguments[n - 1]
       case ExpressionArgument(expr) => FoundInExpression(expr)
       case SpreadArgument => {})
  }

  /** The chains collected from the first `n` elements of an array literal; holes and spreads are skipped. */
  function FoundInElements(arr: ArrayExpression, n: nat): set<string>
    requires n <= |arr.elements|
    decreases arr, n
  {
    if n == 0 then {}
    else
      FoundInElements(arr, n - 1) +
      (match arr.elements[n - 1]
       case ExpressionElement(expr) => FoundInExpression(expr)
       case _ => {})
  }

  /** Only expression statements are examined. */
  function FoundInStatement(s: Statement): set<string> {
    match s
    case ExpressionStatement(expression) => FoundInExpression(expression)
    case OtherStatement => {}
  }

  function FoundInStatements(body: seq<Statement>): set<string> {
    if |body| == 0 then {}
    else FoundInStatements(body[..|body| - 1]) + FoundInStatement(body[|body| - 1])
  }

  /** `check_expression`: adds the chains of `e` to `deps`. */
  method CheckExpression(e: Expression, deps: set<string>) returns (result: set<string>)
    ensures result == deps + FoundInExpression(e)
    decreases e
  {
    match e
    case Call(call) =>
      result := CheckExpression(call.callee, deps);
      for i := 0 to |call.arguments|
        invariant result == deps + FoundInExpression(call.callee) + FoundInArguments(call, i)
      {
        match call.arguments[i]
        case ExpressionArgument(expr) =>
          result := CheckExpression(expr, result);
        case SpreadArgument =>
      }
    case Identifier(ident) =>
      result := deps;
      if IsIdentifierADependency(ident) {
        result := result + {ident.name};
      }
    case Member(obj, _) =>
      result := deps;
      if !obj.Identifier? {
        return;
      }
      if !IsIdentifierADependency(obj.ident) {
        return;
      }
      var dependency := AnalyzePropertyChain(e);
      if dependency.Some? {
        result := result + {dependency.value};
      }
    case Array(arr) =>
      result := deps;
      for i := 0 to |arr.elements|
        invariant result == deps + FoundInElements(arr, i)
      {
        match arr.elements[i]
        case ExpressionElement(expr) =>
          result := CheckExpression(expr, result);
        case _ =>
      }
    case _ =>
      result := deps;
  }

  /** `check_statement`: adds the chains of an expression statement to `deps`. */
  method CheckStatement(s: Statement, deps: set<string>) returns (result: set<string>)
    ensures result == deps + FoundInStatement(s)
  {
    match s
    case ExpressionStatement(expression) =>
      result := CheckExpression(expression, deps);
    case OtherStatement =>
      result := deps;
  }

  /**
   * A read the walk can turn into a chain: an identifier operand, or an
   * identifier object of a member with a static name.
   */
  datatype Read = Read(ident: IdentifierReference, property: Option<string>)

  /** The chain a read contributes: the name, or the name, ".", and the property. */
  function ReadChain(r: Read): string {
    match r.property
    case None => r.ident.name
    case Some(name) => r.ident.name + "." + name
  }

  /** The reads of an expression, found through call callees, arguments and array elements. */
  function ReadsIn(e: Expression): set<Read>
    decreases e
  {
    match e
    case Call(call) => ReadsIn(call.callee) + ReadsInArguments(call, |call.arguments|)
    case Identifier(ident) => {Read(ident, None)}
    case Member(obj, property) =>
      if obj.Identifier? && StaticPropertyName(property).Some? then {Read(obj.ident, StaticPropertyName(property))} else {}
    case Array(arr) => ReadsInElements(arr, |arr.elements|)
    case _ => {}
  }

  function ReadsInArguments(call: CallExpression, n: nat): set<Read>
    requires n <= |call.arguments|
    decreases call, n
  {
    if n == 0 then {}
    else
      ReadsInArguments(call, n - 1) +
      (match call.arguments[n - 1]
       case ExpressionArgument(expr) => ReadsIn(expr)
       case SpreadArgument => {})
  }

  function ReadsInElements(arr: ArrayExpression, n: nat): set<Read>
    requires n <= |arr.elements|
    decreases arr, n
  {
    if n == 0 then {}
    else
      ReadsInElements(arr, n - 1) +
      (match arr.elements[n - 1]
       case ExpressionElement(expr) => ReadsIn(expr)
       case _ => {})
  }

  /** The reads of a callback body's expression statements. */
  function ReadsInStatements(body: seq<Statement>): set<Read> {
    if |body| == 0 then {}
    else
      ReadsInStatements(body[..|body| - 1]) +
      (match body[|body| - 1]
       case ExpressionStatement(expression) => ReadsIn(expression)
       case OtherStatement => {})
  }

  /** The chains of the reads whose identifier passes the capture filter. */
  function CapturedChains(rs: set<Read>): set<string> {
    set r | r in rs && IsIdentifierADependency(r.ident) :: ReadChain(r)
  }

  lemma CapturedChainsUnion(a: set<Read>, b: set<Read>)
    ensures CapturedChains(a + b) == CapturedChains(a) + CapturedChains(b)
  {
  }

  /**
   * The walk collects exactly the chains of the reads of `e` whose
   * identifier passes the capture filter.
   */
  lemma {:induction false} FoundIsCapturedReads(e: Expression)
    ensures FoundInExpression(e) == CapturedChains(ReadsIn(e))
    decreases e, 0
  {
    match e
    case Call(call) =>
      FoundIsCapturedReads(call.callee);
      FoundInArgumentsIsCapturedReads(call, |call.arguments|);
      CapturedChainsUnion(ReadsIn(call.callee), ReadsInArguments(call, |call.arguments|));
    case Identifier(ident) =>
      assert CapturedChains({Read(ident, None)}) == if IsIdentifierADependency(ident) then {ident.name} else {};
    case Member(obj, property) =>
      if obj.Identifier? && StaticPropertyName(property).Some? {
        var r := Read(obj.ident, StaticPropertyName(property));
        assert AnalyzePropertyChain(obj) == Some(obj.ident.name);
        assert AnalyzePropertyChain(e) == Some(ReadChain(r));
        assert CapturedChains({r}) == if IsIdentifierADependency(obj.ident) then {ReadChain(r)} else {};
      } else if obj.Identifier? {
        assert AnalyzePropertyChain(e).None?;
      }
    case Array(arr) =>
      FoundInElementsIsCapturedReads(arr, |arr.elements|);
    case Wrapped(_) =>
    case ArrowFunction(_) =>
    case OtherExpression =>
  }

  lemma {:induction false} FoundInArgumentsIsCapturedReads(call: CallExpression, n: nat)
    requires n <= |call.arguments|
    ensures FoundInArguments(call, n) == CapturedChains(ReadsInArguments(call, n))
    decreases call, n
  {
    if n > 0 {
      FoundInArgumentsIsCapturedReads(call, n - 1);
      match call.arguments[n - 1]
      case ExpressionArgument(expr) =>
        FoundIsCapturedReads(expr);
        CapturedChainsUnion(ReadsInArguments(call, n - 1), ReadsIn(expr));
      case SpreadArgument =>
    }
  }

  lemma {:induction false} FoundInElementsIsCapturedReads(arr: ArrayExpression, n: nat)
    requires n <= |arr.elements|
    ensures FoundInElements(arr, n) == CapturedChains(ReadsInElements(arr, n))
    decreases arr, n
  {
    if n > 0 {
      FoundInElementsIsCapturedReads(arr, n - 1);
      match arr.elements[n - 1]
      case ExpressionElement(expr) =>
        FoundIsCapturedReads(expr);
        CapturedChainsUnion(ReadsInElements(arr, n - 1), ReadsIn(expr));
      case _ =>
    }
  }

  /** The same for a whole callback body. */
  lemma {:induction false} FoundInStatementsIsCapturedReads(body: seq<Statement>)
    ensures FoundInStatements(body) == CapturedChains(ReadsInStatements(body))
  {
    if |body| > 0 {
      var init := body[..|body| - 1];
      FoundInStatementsIsCapturedReads(init);
      match body[|body| - 1]
      case ExpressionStatement(expression) =>
        FoundIsCapturedReads(expression);
        CapturedChainsUnion(ReadsInStatements(init), ReadsIn(expression));
      case OtherStatement =>
    }
  }

  /** A read whose identifier name and property name contain no ".". */
  predicate DotFreeRead(r: Read) {
    '.' !in r.ident.name && (r.property.Some? ==> '.' !in r.property.value)
  }

  /**
   * Every chain collected from a body is the chain of a read in that body
   * whose identifier passes the capture filter. When the names read contain
   * no ".", the chain has at most one ".", and the text before it is the
   * read identifier's name.
   */
  lemma FoundChainIsShallowRead(body: seq<Statement>, c: string)
    requires c in FoundInStatements(body)
    ensures exists r :: r in ReadsInStatements(body) && IsIdentifierADependency(r.ident) && c == ReadChain(r)
    ensures (forall r :: r in ReadsInStatements(body) ==> DotFreeRead(r)) ==>
      '.' !in c || (SplitOnce(c, '.').Some? && '.' !in SplitOnce(c, '.').value.1)
  {
    FoundInStatementsIsCapturedReads(body);
    var r :| r in ReadsInStatements(body) && IsIdentifierADependency(r.ident) && c == ReadChain(r);
    if (forall r :: r in ReadsInStatements(body) ==> DotFreeRead(r)) && r.property.Some? {
      assert DotFreeRead(r);
      SplitOnceUnique(c, '.', r.ident.name, r.property.value);
    }
  }

  /** The found set of a body is the union over its statements, so statement order does not matter. */
  lemma {:induction false} FoundInStatementsAppend(a: seq<Statement>, b: seq<Statement>)
    ensures FoundInStatements(a + b) == FoundInStatements(a) + FoundInStatements(b)
  {
    if |b| > 0 {
      var ab := a + b;
      assert ab[..|ab| - 1] == a + b[..|b| - 1];
      FoundInStatementsAppend(a, b[..|b| - 1]);
    } else {
      assert a + b == a;
    }
  }

  /**
   * A member chain of a member chain (`props.foo.bar`) contributes nothing,
   * and neither does a member whose object is not a plain identifier.
   */
  lemma DeepChainIsNotCollected(e: Expression)
    requires e.Member? && !e.obj.Identifier?
    ensures FoundInExpression(e) == {}
  {
  }
}
