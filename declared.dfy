/**
 * The declared-dependency parser: `collect_dependencies` reads the array
 * literal passed as a hook's second argument into a set of chains.
 */
module Declared {
  import opened Wrappers
  import opened Ast
  import opened PropertyChain

  /** The chains contributed by a sequence of array elements. */
  function ChainsOf(elements: seq<ArrayElement>): set<string> {
    if |elements| == 0 then {}
    else
      var last := elements[|elements| - 1];
      ChainsOf(elements[..|elements| - 1]) +
      (if last.ExpressionElement? && AnalyzePropertyChain(last.expr).Some? then {AnalyzePropertyChain(last.expr).value} else {})
  }

  /** The declared set of a dependency argument; a spread or non-array argument declares nothing. */
  function DeclaredSet(deps: Argument): set<string> {
    if deps.ExpressionArgument? && deps.expr.Array? then ChainsOf(deps.expr.arr.elements) else {}
  }

  /** Element `i` of the list declares chain `c`. */
  predicate DeclaresAt(elements: seq<ArrayElement>, i: int, c: string)
    requires 0 <= i < |elements|
  {
    elements[i].ExpressionElement? && AnalyzePropertyChain(elements[i].expr) == Some(c)
  }

  /**
   * A chain is declared exactly when some element is an expression whose chain
   * it is: holes, spreads and unanalysable elements contribute nothing.
   */
  lemma {:induction false} ChainsOfMembership(elements: seq<ArrayElement>, c: string)
    ensures c in ChainsOf(elements) <==> exists i :: 0 <= i < |elements| && DeclaresAt(elements, i, c)
  {
    if |elements| > 0 {
      var init := elements[..|elements| - 1];
      ChainsOfMembership(init, c);
      if c in ChainsOf(init) {
        var i :| 0 <= i < |init| && DeclaresAt(init, i, c);
        assert DeclaresAt(elements, i, c);
      } else if c in ChainsOf(elements) {
        assert DeclaresAt(elements, |init|, c);
      }
      if exists i :: 0 <= i < |elements| && DeclaresAt(elements, i, c) {
        var i :| 0 <= i < |elements| && DeclaresAt(elements, i, c);
        if i < |init| {
          assert DeclaresAt(init, i, c);
        } else {
          assert elements[i] == elements[|elements| - 1];
        }
      }
    }
  }

  /** Repeating an element of the list declares nothing new (duplicates collapse). */
  lemma DuplicateCollapses(elements: seq<ArrayElement>, k: nat)
    requires k < |elements|
    ensures ChainsOf(elements + [elements[k]]) == ChainsOf(elements)
  {
    var longer := elements + [elements[k]];
    assert longer[..|longer| - 1] == elements;
    if elements[k].ExpressionElement? && AnalyzePropertyChain(elements[k].expr).Some? {
      ChainsOfMembership(elements, AnalyzePropertyChain(elements[k].expr).value);
      assert DeclaresAt(elements, k, AnalyzePropertyChain(elements[k].expr).value);
    }
  }

  /** `collect_dependencies`. */
  method CollectDependencies(deps: Argument) returns (result: set<string>)
    ensures result == DeclaredSet(deps)
  {
    if !deps.ExpressionArgument? {
      return {};
    }
    if !deps.expr.Array? {
      return {};
    }
    var elements := deps.expr.arr.elements;
    result := {};
    for i := 0 to |elements|
      invariant result == ChainsOf(elements[..i])
    {
      assert elements[..i + 1][..i] == elements[..i];
      match elements[i]
      case ExpressionElement(expr) =>
        var dependency := AnalyzePropertyChain(expr);
        if dependency.Some? {
          result := result + {dependency.value};
        }
      case _ =>
    }
    assert elements[..|elements|] == elements;
  }
}
