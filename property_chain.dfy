/**
 * Property-chain canonicalisation: `analyze_property_chain` turns `a.b.c`
 * into the string "a.b.c". A chain is also a sequence of names; `Segments`
 * is that view, and the lemmas tie the string the rule builds to it. `SplitOnce` models the string library's `split_once`, which
 * the rule uses to find the root segment of a chain.
 */
module PropertyChain {
  import opened Wrappers
  import opened Ast

  /** The result of `static_property_name` on a member expression's property. */
  function StaticPropertyName(p: Property): (r: Option<string>)
    ensures p.Static? ==> r == Some(p.name)
  {
    match p
    case Static(name) => Some(name)
    case Computed(staticName) => staticName
  }

  /** `analyze_property_chain`: the dotted chain of an identifier or member expression. */
  function AnalyzePropertyChain(e: Expression): (r: Option<string>)
    ensures r.Some? ==> e.Identifier? || e.Member?
  {
    match e
    case Identifier(ident) => Some(ident.name)
    case Member(obj, property) =>
      (match (AnalyzePropertyChain(obj), StaticPropertyName(property))
       case (Some(chain), Some(name)) => Some(chain + "." + name)
       case _ => None)
    case _ => None
  }

  /** The chain as a sequence of names, root first. */
  function Segments(e: Expression): Option<seq<string>> {
    match e
    case Identifier(ident) => Some([ident.name])
    case Member(obj, property) =>
      (match (Segments(obj), StaticPropertyName(property))
       case (Some(segs), Some(name)) => Some(segs + [name])
       case _ => None)
    case _ => None
  }

  /** The names of a chain joined with ".". */
  function Join(segs: seq<string>): string
    requires |segs| > 0
  {
    if |segs| == 1 then segs[0] else Join(segs[..|segs| - 1]) + "." + segs[|segs| - 1]
  }

  /** The number of member levels above the innermost object. */
  function Depth(e: Expression): nat {
    if e.Member? then Depth(e.obj) + 1 else 0
  }

  /** The innermost object of a member chain. */
  function Root(e: Expression): Expression {
    if e.Member? then Root(e.obj) else e
  }

  /** Every member level of the chain has a statically known property name. */
  predicate AllStatic(e: Expression) {
    e.Member? ==> StaticPropertyName(e.property).Some? && AllStatic(e.obj)
  }

  /** The chain string is exactly the joined segment sequence, and they fail together. */
  lemma {:induction false} ChainIsJoinedSegments(e: Expression)
    ensures AnalyzePropertyChain(e).Some? <==> Segments(e).Some?
    ensures Segments(e).Some? ==> AnalyzePropertyChain(e).value == Join(Segments(e).value)
  {
    if e.Member? {
      ChainIsJoinedSegments(e.obj);
      if Segments(e).Some? {
        var segs := Segments(e.obj).value + [StaticPropertyName(e.property).value];
        assert segs[..|segs| - 1] == Segments(e.obj).value;
      }
    }
  }

  /**
   * A chain exists exactly when the innermost object is an identifier and
   * every level is static; it then has the root's name first and one more
   * segment per member level.
   */
  lemma {:induction false} SegmentsShape(e: Expression)
    ensures Segments(e).Some? <==> Root(e).Identifier? && AllStatic(e)
    ensures Segments(e).Some? ==>
      |Segments(e).value| == Depth(e) + 1 && Segments(e).value[0] == Root(e).ident.name
  {
    if e.Member? {
      SegmentsShape(e.obj);
    }
  }

  /** `split_once`: the text before and after the first `sep`, if there is one. */
  function SplitOnce(s: string, sep: char): (r: Option<(string, string)>)
    ensures r.None? <==> sep !in s
    ensures r.Some? ==> s == r.value.0 + [sep] + r.value.1 && sep !in r.value.0
  {
    if |s| == 0 then None
    else if s[0] == sep then Some(([], s[1..]))
    else
      match SplitOnce(s[1..], sep)
      case None => None
      case Some((before, after)) => Some(([s[0]] + before, after))
  }

  /** Any split at a first occurrence of `sep` is the one `SplitOnce` finds. */
  lemma {:induction false} SplitOnceUnique(s: string, sep: char, before: string, after: string)
    requires s == before + [sep] + after && sep !in before
    ensures SplitOnce(s, sep) == Some((before, after))
  {
    if |before| > 0 {
      assert s[1..] == before[1..] + [sep] + after;
      SplitOnceUnique(s[1..], sep, before[1..], after);
      assert [s[0]] + before[1..] == before;
    } else {
      assert s[1..] == after;
    }
  }

  /** A joined chain of two or more names is its first name, ".", and the rest joined. */
  lemma {:induction false} JoinHead(segs: seq<string>)
    requires |segs| > 1
    ensures Join(segs) == segs[0] + "." + Join(segs[1..])
  {
    if |segs| > 2 {
      var init := segs[..|segs| - 1];
      JoinHead(init);
      assert init[1..] == segs[1..][..|segs[1..]| - 1];
    }
  }

  /**
   * The text before the first "." of a member chain is the root identifier's
   * name, provided that name has no "." of its own.
   */
  lemma RootSegmentOfChain(e: Expression)
    requires AnalyzePropertyChain(e).Some? && e.Member?
    requires Root(e).Identifier? && '.' !in Root(e).ident.name
    ensures SplitOnce(AnalyzePropertyChain(e).value, '.').Some?
    ensures SplitOnce(AnalyzePropertyChain(e).value, '.').value.0 == Root(e).ident.name
  {
    ChainIsJoinedSegments(e);
    SegmentsShape(e);
    var segs := Segments(e).value;
    JoinHead(segs);
    SplitOnceUnique(Join(segs), '.', segs[0], Join(segs[1..]));
  }
}
