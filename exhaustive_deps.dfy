/**
 * The rule itself (`ExhaustiveDeps::run`): gate on a tracked hook whose first
 * argument is an arrow function, build the declared set from the second
 * argument, collect the found set from the callback body, and report every
 * found chain that is neither declared nor rooted at a declared name.
 */
module ExhaustiveDeps {
  import opened Wrappers
  import opened Ast
  import opened PropertyChain
  import opened Hooks
  import opened Declared
  import opened Collector
  import opened Stability

  /** "React Hook {hook} has a missing dependency: {dependency}", labelled at the call's span. */
  datatype Diagnostic = MissingDependency(hook: string, dependency: string, span: Span)

  /** The text before the first "." of `dep` is declared. */
  predicate CoveredByRoot(dep: string, declared: set<string>) {
    match SplitOnce(dep, '.')
    case Some((root, _)) => root in declared
    case None => false
  }

  /** A call site that passes the gate: its hook name, the call, and the callback's statements. */
  datatype Site = Site(hook: string, call: CallExpression, body: seq<Statement>)

  /** The gate of `run`: a call to a tracked hook whose first argument is an arrow function. */
  function Gate(node: AstKind): (r: Option<Site>)
    ensures r.Some? ==> node.CallExpressionKind? && r.value.call == node.call
    ensures r.Some? ==> r.value.hook in HOOKS && FuncCallWithoutReactNamespace(node.call) == Some(r.value.hook)
    ensures r.Some? ==> |node.call.arguments| > 0 && node.call.arguments[0] == ExpressionArgument(ArrowFunction(r.value.body))
    ensures r.Some? <==>
      && node.CallExpressionKind?
      && FuncCallWithoutReactNamespace(node.call).Some?
      && FuncCallWithoutReactNamespace(node.call).value in HOOKS
      && |node.call.arguments| > 0
      && node.call.arguments[0].ExpressionArgument?
      && node.call.arguments[0].expr.ArrowFunction?
  {
    if !node.CallExpressionKind? then None
    else
      match FuncCallWithoutReactNamespace(node.call)
      case None => None
      case Some(callback) =>
        if callback !in HOOKS then None
        else if |node.call.arguments| == 0 || !node.call.arguments[0].ExpressionArgument? then None
        else if !node.call.arguments[0].expr.ArrowFunction? then None
        else Some(Site(callback, node.call, node.call.arguments[0].expr.body))
  }

  /**
   * Every call to a tracked hook whose first argument is an arrow function
   * passes the gate, whatever its other arguments are.
   */
  lemma GateConverse(call: CallExpression, hook: string, body: seq<Statement>)
    requires FuncCallWithoutReactNamespace(call) == Some(hook) && hook in HOOKS
    requires |call.arguments| > 0 && call.arguments[0] == ExpressionArgument(ArrowFunction(body))
    ensures Gate(CallExpressionKind(call)) == Some(Site(hook, call, body))
  {
  }

  /** The declared set of a call; a call without a second argument declares nothing. */
  function DeclaredOf(call: CallExpression): set<string> {
    if |call.arguments| > 1 then DeclaredSet(call.arguments[1]) else {}
  }

  /** One diagnostic per chain of `deps` whose root is not declared. */
  function Report(hook: string, span: Span, deps: set<string>, declared: set<string>): set<Diagnostic> {
    set dep | dep in deps && !CoveredByRoot(dep, declared) :: MissingDependency(hook, dep, span)
  }

  /** The diagnostics `run` emits for a node. */
  function Diagnostics(node: AstKind): set<Diagnostic> {
    match Gate(node)
    case None => {}
    case Some(site) =>
      var declared := DeclaredOf(site.call);
      Report(site.hook, site.call.span, FoundInStatements(site.body) - declared, declared)
  }

  /** Reporting one more chain adds at most its own diagnostic. */
  lemma ReportStep(hook: string, span: Span, deps: set<string>, dep: string, declared: set<string>)
    ensures Report(hook, span, deps + {dep}, declared) ==
      Report(hook, span, deps, declared) + (if CoveredByRoot(dep, declared) then {} else {MissingDependency(hook, dep, span)})
  {
  }

  /** The loop of `run` over the set difference. */
  method ReportUndeclared(hook: string, span: Span, found: set<string>, declared: set<string>) returns (diagnostics: set<Diagnostic>)
    ensures diagnostics == Report(hook, span, found - declared, declared)
  {
    var undeclared := found - declared;
    var rest := undeclared;
    diagnostics := {};
    while rest != {}
      invariant rest <= undeclared
      invariant diagnostics == Report(hook, span, undeclared - rest, declared)
      decreases |rest|
    {
      var dep :| dep in rest;
      ReportStep(hook, span, undeclared - rest, dep, declared);
      assert undeclared - (rest - {dep}) == (undeclared - rest) + {dep};
      rest := rest - {dep};
      var target := SplitOnce(dep, '.');
      if target.Some? && target.value.0 in declared {
        continue;
      }
      diagnostics := diagnostics + {MissingDependency(hook, dep, span)};
    }
    assert undeclared - rest == undeclared;
  }

  /** The loop of `run` over the callback's statements. */
  method CheckBody(body: seq<Statement>) returns (found: set<string>)
    ensures found == FoundInStatements(body)
  {
    found := {};
    for i := 0 to |body|
      invariant found == FoundInStatements(body[..i])
    {
      assert body[..i + 1][..i] == body[..i];
      found := CheckStatement(body[i], found);
    }
    assert body[..|body|] == body;
  }

  /** `ExhaustiveDeps::run`. */
  method Run(node: AstKind) returns (diagnostics: set<Diagnostic>)
    ensures diagnostics == Diagnostics(node)
  {
    diagnostics := {};
    if !node.CallExpressionKind? {
      return;
    }
    var call := node.call;
    var callback := FuncCallWithoutReactNamespace(call);
    if callback.None? {
      return;
    }
    if callback.value in HOOKS {
      if |call.arguments| == 0 || !call.arguments[0].ExpressionArgument? {
        return;
      }
      var arg0 := call.arguments[0].expr;
      if !arg0.ArrowFunction? {
        return;
      }
      var declared: set<string>;
      if |call.arguments| > 1 {
        declared := CollectDependencies(call.arguments[1]);
      } else {
        declared := {};
      }
      var found := CheckBody(arg0.body);
      diagnostics := ReportUndeclared(callback.value, call.span, found, declared);
    }
  }

  /** The text before the first "." of `dep` exists and is in `declared`, stated without `SplitOnce`. */
  ghost predicate RootDeclared(dep: string, declared: set<string>) {
    exists k :: 0 <= k < |dep| && dep[k] == '.' && '.' !in dep[..k] && dep[..k] in declared
  }

  lemma CoveredByRootIff(dep: string, declared: set<string>)
    ensures CoveredByRoot(dep, declared) <==> RootDeclared(dep, declared)
  {
    match SplitOnce(dep, '.')
    case Some((root, after)) =>
      var k := |root|;
      assert dep[k] == '.' && dep[..k] == root;
      if RootDeclared(dep, declared) {
        var j :| 0 <= j < |dep| && dep[j] == '.' && '.' !in dep[..j] && dep[..j] in declared;
        assert dep == dep[..j] + ['.'] + dep[j + 1..];
        SplitOnceUnique(dep, '.', dep[..j], dep[j + 1..]);
      }
    case None =>
  }

  /**
   * A diagnostic is emitted exactly for each found chain that is neither
   * declared nor has its root segment declared, carrying the matched hook
   * name and the call's span.
   */
  lemma DiagnosticsCharacterization(node: AstKind, d: Diagnostic)
    requires Gate(node).Some?
    ensures var site := Gate(node).value;
            var found := FoundInStatements(site.body);
            var declared := DeclaredOf(site.call);
            d in Diagnostics(node) <==>
              && d.hook == site.hook && d.span == site.call.span
              && d.dependency in found && d.dependency !in declared
              && !RootDeclared(d.dependency, declared)
  {
    CoveredByRootIff(d.dependency, DeclaredOf(Gate(node).value.call));
  }

  /** Outside the gate nothing is reported. */
  lemma UngatedNodeReportsNothing(node: AstKind)
    requires Gate(node).None?
    ensures Diagnostics(node) == {}
  {
  }

  /** A call that is not a tracked hook, or whose callback is not an arrow function, reports nothing. */
  lemma NonHookCallReportsNothing(call: CallExpression)
    requires FuncCallWithoutReactNamespace(call).None? || FuncCallWithoutReactNamespace(call).value !in HOOKS
             || |call.arguments| == 0 || call.arguments[0] == SpreadArgument
             || !call.arguments[0].expr.ArrowFunction?
    ensures Diagnostics(CallExpressionKind(call)) == {}
  {
  }

  /** When every found chain is declared, nothing is reported. */
  lemma ExactMatchReportsNothing(node: AstKind)
    requires Gate(node).Some?
    requires FoundInStatements(Gate(node).value.body) <= DeclaredOf(Gate(node).value.call)
    ensures Diagnostics(node) == {}
  {
    var site := Gate(node).value;
    assert FoundInStatements(site.body) - DeclaredOf(site.call) == {};
  }

  /** A node each of whose found chains is declared or covered by its declared root reports nothing. */
  lemma CoveredFoundReportsNothing(node: AstKind)
    requires Gate(node).Some?
    requires forall dep :: dep in FoundInStatements(Gate(node).value.body) ==>
      dep in DeclaredOf(Gate(node).value.call) || CoveredByRoot(dep, DeclaredOf(Gate(node).value.call))
    ensures Diagnostics(node) == {}
  {
  }

  /** Declaring more never adds a diagnostic. */
  lemma MoreDeclaredReportsLess(hook: string, span: Span, found: set<string>, declared: set<string>, more: set<string>)
    requires declared <= more
    ensures Report(hook, span, found - more, more) <= Report(hook, span, found - declared, declared)
  {
  }

  /** Two diagnostics of one node naming the same chain are the same diagnostic. */
  lemma OneDiagnosticPerChain(node: AstKind, d1: Diagnostic, d2: Diagnostic)
    requires d1 in Diagnostics(node) && d2 in Diagnostics(node)
    requires d1.dependency == d2.dependency
    ensures d1 == d2
  {
  }

  /** The chains of `deps` whose root segment is not declared. */
  function Uncovered(deps: set<string>, declared: set<string>): set<string> {
    set dep | dep in deps && !CoveredByRoot(dep, declared)
  }

  /** The found chains the rule reports. */
  function Undeclared(found: set<string>, declared: set<string>): set<string> {
    Uncovered(found - declared, declared)
  }

  /** The diagnostics naming each of `chains`. */
  function Named(hook: string, span: Span, chains: set<string>): set<Diagnostic> {
    set dep | dep in chains :: MissingDependency(hook, dep, span)
  }

  lemma {:induction false} NamedCardinality(hook: string, span: Span, chains: set<string>)
    ensures |Named(hook, span, chains)| == |chains|
    decreases |chains|
  {
    if chains != {} {
      var dep :| dep in chains;
      var rest := chains - {dep};
      NamedCardinality(hook, span, rest);
      assert Named(hook, span, chains) == Named(hook, span, rest) + {MissingDependency(hook, dep, span)};
      assert MissingDependency(hook, dep, span) !in Named(hook, span, rest);
    } else {
      assert Named(hook, span, chains) == {};
    }
  }

  lemma ReportCardinality(hook: string, span: Span, deps: set<string>, declared: set<string>)
    ensures |Report(hook, span, deps, declared)| == |Uncovered(deps, declared)|
  {
    assert Report(hook, span, deps, declared) == Named(hook, span, Uncovered(deps, declared));
    NamedCardinality(hook, span, Uncovered(deps, declared));
  }

  /** One diagnostic per reported chain: the number of diagnostics is the number of reported chains. */
  lemma DiagnosticCount(node: AstKind)
    requires Gate(node).Some?
    ensures var site := Gate(node).value;
            var found := FoundInStatements(site.body);
            |Diagnostics(node)| == |Undeclared(found, DeclaredOf(site.call))| <= |found|
  {
    var site := Gate(node).value;
    var found := FoundInStatements(site.body);
    var declared := DeclaredOf(site.call);
    ReportCardinality(site.hook, site.call.span, found - declared, declared);
    assert Undeclared(found, declared) <= found;
    SubsetCardinality(Undeclared(found, declared), found);
  }

  lemma SubsetCardinality(a: set<string>, b: set<string>)
    requires a <= b
    ensures |a| <= |b|
  {
    assert b == a + (b - a);
  }

  /**
   * Without a usable dependency array (no second argument, a spread, or a
   * non-array expression) the declared set is empty and every found chain is
   * reported.
   */
  lemma NoDependencyArrayReportsEveryFoundChain(node: AstKind)
    requires Gate(node).Some?
    requires var args := Gate(node).value.call.arguments;
             |args| == 1 || !args[1].ExpressionArgument? || !args[1].expr.Array?
    ensures var site := Gate(node).value;
            Diagnostics(node) == set dep | dep in FoundInStatements(site.body) :: MissingDependency(site.hook, dep, site.call.span)
  {
    var site := Gate(node).value;
    assert DeclaredOf(site.call) == {};
    forall dep | dep in FoundInStatements(site.body)
      ensures !CoveredByRoot(dep, {})
    {
    }
  }

  /**
   * Every reported chain is the chain of a read in the callback body whose
   * identifier passes the capture filter; when that identifier's name has no
   * ".", the name itself is not declared.
   */
  lemma ReportedChainsAreCapturedReads(node: AstKind, d: Diagnostic)
    requires d in Diagnostics(node)
    ensures var site := Gate(node).value;
            exists r :: r in ReadsInStatements(site.body) && IsIdentifierADependency(r.ident) && d.dependency == ReadChain(r)
              && ('.' !in r.ident.name ==> r.ident.name !in DeclaredOf(site.call))
  {
    var site := Gate(node).value;
    var declared := DeclaredOf(site.call);
    FoundChainIsShallowRead(site.body, d.dependency);
    var r :| r in ReadsInStatements(site.body) && IsIdentifierADependency(r.ident) && d.dependency == ReadChain(r);
    if '.' !in r.ident.name && r.property.Some? {
      CoverageIsRootOnly(r.ident.name, r.property.value, declared);
    }
  }

  /** A chain without "." is never covered by a root segment. */
  lemma DotlessChainIsNeverCovered(dep: string, declared: set<string>)
    requires '.' !in dep
    ensures !CoveredByRoot(dep, declared)
  {
  }

  /**
   * Coverage looks only at the root segment: for a root `a` without ".",
   * `a.x` is covered exactly when `a` itself is declared, whatever longer
   * prefix of `a.x` (such as `a.b` for `a.b.c`) is declared.
   */
  lemma CoverageIsRootOnly(a: string, x: string, declared: set<string>)
    requires '.' !in a
    ensures CoveredByRoot(a + "." + x, declared) <==> a in declared
  {
    SplitOnceUnique(a + "." + x, '.', a, x);
  }

  /** `a.b.c` with `a.b` declared is still reported; with `a` declared it is not. */
  lemma CoverageExample()
    ensures !CoveredByRoot("a.b.c", {"a.b"})
    ensures CoveredByRoot("a.b.c", {"a"})
  {
    assert "a.b.c" == "a" + "." + "b.c";
    CoverageIsRootOnly("a", "b.c", {"a.b"});
    CoverageIsRootOnly("a", "b.c", {"a"});
  }

  /**
   * For any analysable member chain with a dotless root identifier, coverage
   * holds exactly when the root identifier's name is declared.
   */
  lemma MemberChainCoveredByRoot(e: Expression, declared: set<string>)
    requires e.Member? && AnalyzePropertyChain(e).Some?
    requires Root(e).Identifier? && '.' !in Root(e).ident.name
    ensures CoveredByRoot(AnalyzePropertyChain(e).value, declared) <==> Root(e).ident.name in declared
  {
    RootSegmentOfChain(e);
  }
}
