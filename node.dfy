/**
 * The source tree of a parsed feature file (Node.kt): a closed variant tree
 * of features, rules, scenarios, scenario outlines, examples blocks and
 * examples; the depth-first path search over it; and the recursive map.
 */
module SourceTree {
  import opened Wrappers

  /** A position in a source file. The search only compares locations for equality. */
  datatype Location = Location(line: int, column: int)

  /**
   * Feature, Rule, ScenarioOutline and Examples are containers and carry
   * their elements in order; Scenario and Example are leaves.
   */
  datatype Node =
    | Feature(location: Location, keyword: Option<string>, name: Option<string>, children: seq<Node>)
    | Rule(location: Location, keyword: Option<string>, name: Option<string>, children: seq<Node>)
    | Scenario(location: Location, keyword: Option<string>, name: Option<string>)
    | ScenarioOutline(location: Location, keyword: Option<string>, name: Option<string>, children: seq<Node>)
    | Examples(location: Location, keyword: Option<string>, name: Option<string>, children: seq<Node>)
    | Example(location: Location, keyword: Option<string>, name: Option<string>)
  {
    predicate IsContainer() {
      Feature? || Rule? || ScenarioOutline? || Examples?
    }

    /** `Container.elements()`; a leaf has none. */
    function Elements(): seq<Node> {
      if IsContainer() then children else []
    }
  }

  function Last<T>(s: seq<T>): T
    requires |s| > 0
  {
    s[|s| - 1]
  }

  function DropLast<T>(s: seq<T>): seq<T> {
    if s == [] then [] else s[..|s| - 1]
  }

  /** Each node of `p` after the first is a direct child of the node before it. */
  predicate IsChain(p: seq<Node>) {
    forall i :: 0 <= i < |p| - 1 ==> p[i + 1] in p[i].Elements()
  }

  /** The node reached by a search result, if any. */
  function Target(r: Option<seq<Node>>): Option<Node> {
    if r.Some? && |r.value| > 0 then Some(Last(r.value)) else None
  }

  // ---------------------------------------------------------------------------
  // Pre-order traversal, the reference for "first match"
  // ---------------------------------------------------------------------------

  /** All nodes of the tree rooted at `n`, in depth-first pre-order, left to right. */
  function Preorder(n: Node): (r: seq<Node>)
    decreases n, 1
  {
    [n] + if n.IsContainer() then PreorderAll(n.children) else []
  }

  function PreorderAll(ns: seq<Node>): seq<Node>
    decreases ns, 0
  {
    if ns == [] then [] else Preorder(ns[0]) + PreorderAll(ns[1..])
  }

  /** The first element of `s` that satisfies `pred`. */
  function FirstSatisfying(s: seq<Node>, pred: Node -> bool): (r: Option<Node>)
    ensures r.Some? ==> r.value in s && pred(r.value)
    ensures r.Some? ==> exists k :: 0 <= k < |s| && s[k] == r.value && forall j :: 0 <= j < k ==> !pred(s[j])
    ensures r.None? <==> forall i :: 0 <= i < |s| ==> !pred(s[i])
  {
    if s == [] then None
    else if pred(s[0]) then Some(s[0])
    else FirstSatisfying(s[1..], pred)
  }

  lemma {:induction false} FirstSatisfyingAppend(a: seq<Node>, b: seq<Node>, pred: Node -> bool)
    ensures FirstSatisfying(a + b, pred)
         == if FirstSatisfying(a, pred).Some? then FirstSatisfying(a, pred) else FirstSatisfying(b, pred)
  {
    if a != [] {
      assert (a + b)[0] == a[0];
      assert (a + b)[1..] == a[1..] + b;
      FirstSatisfyingAppend(a[1..], b, pred);
    } else {
      assert a + b == b;
    }
  }

  // ---------------------------------------------------------------------------
  // The recursive specification of the path search
  // ---------------------------------------------------------------------------

  /**
   * The path from `n` down to the first node, in pre-order, that satisfies
   * `pred`: a matching candidate ends the search, otherwise a container's
   * elements are searched left to right.
   */
  function PreorderPath(n: Node, pred: Node -> bool): (r: Option<seq<Node>>)
    ensures r.Some? ==> |r.value| > 0 && r.value[0] == n && IsChain(r.value)
    ensures r.Some? ==> pred(Last(r.value))
    decreases n, 1
  {
    if pred(n) then Some([n])
    else if !n.IsContainer() then None
    else match PathAmong(n.children, pred)
      case None => None
      case Some(p) => Some([n] + p)
  }

  /** The first path found among the trees `ns`, searched left to right. */
  function PathAmong(ns: seq<Node>, pred: Node -> bool): (r: Option<seq<Node>>)
    ensures r.Some? ==> |r.value| > 0 && r.value[0] in ns && IsChain(r.value)
    ensures r.Some? ==> pred(Last(r.value))
    decreases ns, 0
  {
    if ns == [] then None
    else match PreorderPath(ns[0], pred)
      case Some(p) => Some(p)
      case None => PathAmong(ns[1..], pred)
  }

  /** The search reaches exactly the first node in pre-order that satisfies `pred`. */
  lemma {:induction false} PreorderPathFindsFirst(n: Node, pred: Node -> bool)
    ensures Target(PreorderPath(n, pred)) == FirstSatisfying(Preorder(n), pred)
    decreases n, 1
  {
    if n.IsContainer() {
      PathAmongFindsFirst(n.children, pred);
    }
    assert Preorder(n)[1..] == PreorderAll(n.Elements());
    if !pred(n) && n.IsContainer() {
      var r := PathAmong(n.children, pred);
      if r.Some? {
        assert Last([n] + r.value) == Last(r.value);
      }
    }
  }

  lemma {:induction false} PathAmongFindsFirst(ns: seq<Node>, pred: Node -> bool)
    ensures Target(PathAmong(ns, pred)) == FirstSatisfying(PreorderAll(ns), pred)
    decreases ns, 0
  {
    if ns != [] {
      PreorderPathFindsFirst(ns[0], pred);
      PathAmongFindsFirst(ns[1..], pred);
      FirstSatisfyingAppend(Preorder(ns[0]), PreorderAll(ns[1..]), pred);
    }
  }

  /** The search finds nothing exactly when no node of the tree satisfies `pred`. */
  lemma SearchFailsIffNoMatch(n: Node, pred: Node -> bool)
    ensures PreorderPath(n, pred).None? <==> forall i :: 0 <= i < |Preorder(n)| ==> !pred(Preorder(n)[i])
  {
    PreorderPathFindsFirst(n, pred);
  }

  // ---------------------------------------------------------------------------
  // The explicit-stack search (Node.findPathTo and Container.findPathTo)
  // ---------------------------------------------------------------------------

  /** Number of nodes in the tree rooted at `n`. */
  function Size(n: Node): nat
    decreases n, 1
  {
    1 + if n.IsContainer() then ForestSize(n.children) else 0
  }

  function ForestSize(ns: seq<Node>): nat
    decreases ns, 0
  {
    if ns == [] then 0 else Size(ns[0]) + ForestSize(ns[1..])
  }

  /** Number of nodes still waiting in a stack of sibling groups. */
  function StackSize(stack: seq<seq<Node>>): nat {
    if stack == [] then 0 else StackSize(DropLast(stack)) + ForestSize(Last(stack))
  }

  lemma StackSizePush(stack: seq<seq<Node>>, g: seq<Node>)
    ensures StackSize(stack + [g]) == StackSize(stack) + ForestSize(g)
  {
    assert DropLast(stack + [g]) == stack;
  }

  /**
   * The answer still owed by a search whose tentative path is `path` and whose
   * stack of sibling groups is `stack`, the innermost group last: the first
   * path below the innermost group, extended by the ancestors in `path`;
   * failing that, the answer after backtracking one level.
   */
  function Pending(path: seq<Node>, stack: seq<seq<Node>>, pred: Node -> bool): Option<seq<Node>>
    decreases |stack|
  {
    if stack == [] then None
    else match PathAmong(Last(stack), pred)
      case Some(p) => Some(path + p)
      case None => Pending(DropLast(path), DropLast(stack), pred)
  }

  /** `g` is what remains of `s` after some of its front elements were taken. */
  predicate IsSuffix(g: seq<Node>, s: seq<Node>) {
    |g| <= |s| && g == s[|s| - |g|..]
  }

  /** The leaf `findPathTo`: the leaf itself if it matches, nothing otherwise. */
  function LeafPathTo(n: Node, pred: Node -> bool): (r: Option<seq<Node>>)
    requires !n.IsContainer()
    ensures r == PreorderPath(n, pred)
    ensures r.Some? <==> pred(n)
  {
    if pred(n) then Some([n]) else None
  }

  /**
   * The shape of the search state at the top of each iteration: one path
   * element per sibling group except the outermost; the path runs down from
   * the root through direct children; the outermost group is what is left of
   * `[root]` and each inner group is what is left of the elements of the path
   * node it was pushed for.
   */
  ghost predicate SearchState(root: Node, path: seq<Node>, toSearch: seq<seq<Node>>) {
    && (toSearch == [] ==> path == [])
    && (toSearch != [] ==> |path| == |toSearch| - 1 && IsSuffix(toSearch[0], [root]) && GroupsFit(path, toSearch))
    && (path != [] ==> path[0] == root && IsChain(path))
  }

  /** Group `i + 1` is what is left of the elements of path node `i`. */
  ghost predicate GroupsFit(path: seq<Node>, toSearch: seq<seq<Node>>)
    requires |path| < |toSearch|
  {
    forall i :: 0 <= i < |path| ==> IsSuffix(toSearch[i + 1], path[i].Elements())
  }

  lemma GroupsFitPush(path: seq<Node>, toSearch: seq<seq<Node>>, c: Node)
    requires |path| + 1 == |toSearch| && GroupsFit(path, toSearch)
    ensures GroupsFit(path + [c], toSearch + [c.Elements()])
  {
    var path', toSearch' := path + [c], toSearch + [c.Elements()];
    forall i | 0 <= i < |path'|
      ensures IsSuffix(toSearch'[i + 1], path'[i].Elements())
    {
      if i < |path| {
        assert toSearch'[i + 1] == toSearch[i + 1] && path'[i] == path[i];
      } else {
        assert toSearch'[i + 1] == c.Elements() && path'[i] == c;
      }
    }
  }

  /** An exhausted sibling group is dropped together with one path element. */
  lemma PopKeepsState(root: Node, path: seq<Node>, toSearch: seq<seq<Node>>, pred: Node -> bool)
    requires toSearch != [] && SearchState(root, path, toSearch) && Last(toSearch) == []
    ensures SearchState(root, DropLast(path), DropLast(toSearch))
    ensures Pending(DropLast(path), DropLast(toSearch), pred) == Pending(path, toSearch, pred)
  {
    var path', toSearch' := DropLast(path), DropLast(toSearch);
    if toSearch' != [] {
      forall i | 0 <= i < |path'|
        ensures IsSuffix(toSearch'[i + 1], path'[i].Elements())
      {
        assert toSearch'[i + 1] == toSearch[i + 1] && path'[i] == path[i];
      }
    }
    if path' != [] {
      assert path'[0] == path[0];
      forall i | 0 <= i < |path'| - 1
        ensures path'[i + 1] in path'[i].Elements()
      {
        assert path'[i + 1] == path[i + 1] && path'[i] == path[i];
      }
    }
  }

  /** The front candidate of the innermost group is the root or a child of the last path node. */
  lemma CandidateIsChild(root: Node, path: seq<Node>, toSearch: seq<seq<Node>>)
    requires toSearch != [] && SearchState(root, path, toSearch) && Last(toSearch) != []
    ensures path == [] ==> Last(toSearch)[0] == root
    ensures path != [] ==> Last(toSearch)[0] in Last(path).Elements()
  {
    var g := Last(toSearch);
    if path == [] {
      assert g == toSearch[0];
    } else {
      var s := Last(path).Elements();
      assert IsSuffix(toSearch[|path|], path[|path| - 1].Elements());
      assert g[0] == s[|s| - |g|];
    }
  }

  /** What is left of a group after its front element is taken is still a suffix. */
  lemma SuffixTail(g: seq<Node>, s: seq<Node>)
    requires IsSuffix(g, s) && g != []
    ensures IsSuffix(g[1..], s)
  {
    assert g[1..] == s[|s| - |g| + 1..];
  }

  /** Taking the front candidate off the innermost group keeps every group fitting its path node. */
  lemma GroupsFitTake(path: seq<Node>, toSearch: seq<seq<Node>>)
    requires |path| + 1 == |toSearch| && GroupsFit(path, toSearch) && Last(toSearch) != []
    ensures GroupsFit(path, DropLast(toSearch) + [Last(toSearch)[1..]])
  {
    var toSearch' := DropLast(toSearch) + [Last(toSearch)[1..]];
    forall i | 0 <= i < |path|
      ensures IsSuffix(toSearch'[i + 1], path[i].Elements())
    {
      if i + 1 < |toSearch| - 1 {
        assert toSearch'[i + 1] == toSearch[i + 1];
      } else {
        SuffixTail(toSearch[i + 1], path[i].Elements());
        assert toSearch'[i + 1] == Last(toSearch)[1..];
      }
    }
  }

  /** Taking the front candidate off the innermost group keeps the shape. */
  lemma TakeKeepsState(root: Node, path: seq<Node>, toSearch: seq<seq<Node>>)
    requires toSearch != [] && SearchState(root, path, toSearch) && Last(toSearch) != []
    ensures SearchState(root, path, DropLast(toSearch) + [Last(toSearch)[1..]])
  {
    var g := Last(toSearch);
    var toSearch' := DropLast(toSearch) + [g[1..]];
    GroupsFitTake(path, toSearch);
    if path == [] {
      assert toSearch[0] == g;
      SuffixTail(g, [root]);
      assert toSearch'[0] == g[1..];
    } else {
      assert toSearch'[0] == toSearch[0];
    }
  }

  lemma ChainSnoc(path: seq<Node>, c: Node)
    requires IsChain(path)
    requires path != [] ==> c in Last(path).Elements()
    ensures IsChain(path + [c])
  {
    var path' := path + [c];
    forall i | 0 <= i < |path'| - 1
      ensures path'[i + 1] in path'[i].Elements()
    {
      if i < |path| - 1 {
        assert path'[i + 1] == path[i + 1] && path'[i] == path[i];
      } else {
        assert path'[i + 1] == c && path'[i] == Last(path);
      }
    }
  }

  /** Entering a container pushes its elements and extends the path with it. */
  lemma EnterKeepsState(root: Node, path: seq<Node>, toSearch: seq<seq<Node>>, c: Node)
    requires toSearch != [] && SearchState(root, path, toSearch)
    requires path == [] ==> c == root
    requires path != [] ==> c in Last(path).Elements()
    ensures SearchState(root, path + [c], toSearch + [c.Elements()])
  {
    assert (toSearch + [c.Elements()])[0] == toSearch[0];
    assert (path + [c])[0] == if path == [] then c else path[0];
    ChainSnoc(path, c);
    GroupsFitPush(path, toSearch, c);
  }

  /** Examining a matching front candidate completes the search with it. */
  lemma MatchEndsPending(path: seq<Node>, toSearch: seq<seq<Node>>, pred: Node -> bool)
    requires toSearch != [] && Last(toSearch) != [] && pred(Last(toSearch)[0])
    ensures Pending(path, toSearch, pred) == Some(path + [Last(toSearch)[0]])
  {
    var g := Last(toSearch);
    assert PreorderPath(g[0], pred) == Some([g[0]]);
    assert PathAmong(g, pred) == Some([g[0]]);
  }

  /** Examining a leaf that does not match leaves what the search owes unchanged. */
  lemma SkipLeafKeepsPending(path: seq<Node>, toSearch: seq<seq<Node>>, pred: Node -> bool)
    requires toSearch != [] && Last(toSearch) != []
    requires !pred(Last(toSearch)[0]) && !Last(toSearch)[0].IsContainer()
    ensures Pending(path, DropLast(toSearch) + [Last(toSearch)[1..]], pred) == Pending(path, toSearch, pred)
  {
    var g := Last(toSearch);
    var rest := DropLast(toSearch) + [g[1..]];
    assert Last(rest) == g[1..] && DropLast(rest) == DropLast(toSearch);
    assert PreorderPath(g[0], pred) == None;
    assert PathAmong(g, pred) == PathAmong(g[1..], pred);
  }

  /** Entering a container that does not match leaves what the search owes unchanged. */
  lemma EnterKeepsPending(path: seq<Node>, toSearch: seq<seq<Node>>, pred: Node -> bool)
    requires toSearch != [] && Last(toSearch) != []
    requires !pred(Last(toSearch)[0]) && Last(toSearch)[0].IsContainer()
    ensures var c, rest := Last(toSearch)[0], DropLast(toSearch) + [Last(toSearch)[1..]];
      Pending(path + [c], rest + [c.Elements()], pred) == Pending(path, toSearch, pred)
  {
    var g := Last(toSearch);
    var c, rest := g[0], DropLast(toSearch) + [g[1..]];
    var inner := rest + [c.Elements()];
    assert Last(rest) == g[1..] && DropLast(rest) == DropLast(toSearch);
    assert Last(inner) == c.children && DropLast(inner) == rest;
    assert DropLast(path + [c]) == path;
    match PathAmong(c.children, pred)
    case Some(q) =>
      assert PreorderPath(c, pred) == Some([c] + q);
      assert PathAmong(g, pred) == Some([c] + q);
      assert path + [c] + q == path + ([c] + q);
    case None =>
      assert PreorderPath(c, pred) == None;
      assert PathAmong(g, pred) == PathAmong(g[1..], pred);
  }

  /** Examining a candidate removes one node from the nodes still waiting. */
  lemma TakeShrinksStack(toSearch: seq<seq<Node>>)
    requires toSearch != [] && Last(toSearch) != []
    ensures var c, rest := Last(toSearch)[0], DropLast(toSearch) + [Last(toSearch)[1..]];
      && StackSize(rest) < StackSize(toSearch)
      && StackSize(rest + [c.Elements()]) < StackSize(toSearch)
  {
    var g := Last(toSearch);
    var c, rest := g[0], DropLast(toSearch) + [g[1..]];
    assert DropLast(toSearch) + [g] == toSearch;
    StackSizePush(DropLast(toSearch), g);
    StackSizePush(DropLast(toSearch), g[1..]);
    StackSizePush(rest, c.Elements());
    assert ForestSize(g) == Size(c) + ForestSize(g[1..]);
    assert Size(c) == 1 + ForestSize(c.Elements());
  }

  /**
   * `Container.findPathTo`: depth-first search with an explicit stack of
   * sibling groups and a tentative path that is extended on entering a
   * container and shortened when a sibling group runs out.
   */
  method ContainerPathTo(root: Node, pred: Node -> bool) returns (r: Option<seq<Node>>)
    requires root.IsContainer()
    ensures r == PreorderPath(root, pred)
  {
    var path: seq<Node> := [];
    var toSearch: seq<seq<Node>> := [[root]];
    assert Pending(path, toSearch, pred) == PreorderPath(root, pred) by {
      assert PathAmong([root], pred) == PreorderPath(root, pred);
      assert DropLast(toSearch) == [] && Last(toSearch) == [root];
      match PathAmong([root], pred)
      case Some(p) => assert [] + p == p;
      case None =>
    }
    while toSearch != []
      invariant SearchState(root, path, toSearch)
      invariant Pending(path, toSearch, pred) == PreorderPath(root, pred)
      decreases StackSize(toSearch), |toSearch|
    {
      var candidates := Last(toSearch);
      if candidates == [] {
        PopKeepsState(root, path, toSearch, pred);
        if path != [] {
          path := path[..|path| - 1];
        }
        toSearch := DropLast(toSearch);
        continue;
      }
      var candidate := candidates[0];
      CandidateIsChild(root, path, toSearch);
      TakeKeepsState(root, path, toSearch);
      TakeShrinksStack(toSearch);
      if pred(candidate) {
        MatchEndsPending(path, toSearch, pred);
        path := path + [candidate];
        return Some(path);
      }
      if candidate.IsContainer() {
        EnterKeepsPending(path, toSearch, pred);
      } else {
        SkipLeafKeepsPending(path, toSearch, pred);
      }
      toSearch := DropLast(toSearch) + [candidates[1..]];
      if candidate.IsContainer() {
        EnterKeepsState(root, path, toSearch, candidate);
        path := path + [candidate];
        toSearch := toSearch + [candidate.Elements()];
      }
    }
    return None;
  }

  /** `findPathTo` dispatched on the node's variant, as the Kotlin interfaces do. */
  method FindPathTo(n: Node, pred: Node -> bool) returns (r: Option<seq<Node>>)
    ensures r == PreorderPath(n, pred)
  {
    if n.IsContainer() {
      r := ContainerPathTo(n, pred);
    } else {
      r := LeafPathTo(n, pred);
    }
  }

  // ---------------------------------------------------------------------------
  // Node.map
  // ---------------------------------------------------------------------------

  /** One mapping function per node variant, each taking the node and the mapped parent. */
  datatype Mappers<!T> = Mappers(
    feature: (Node, T) -> T,
    rule: (Node, T) -> T,
    scenario: (Node, T) -> T,
    scenarioOutline: (Node, T) -> T,
    examples: (Node, T) -> T,
    example: (Node, T) -> T)

  /** The mapper for `n`'s variant applied to `n` and `parent`. */
  function Apply<T>(m: Mappers<T>, n: Node, parent: T): (r: T)
    ensures n.Feature? ==> r == m.feature(n, parent)
    ensures n.Rule? ==> r == m.rule(n, parent)
    ensures n.Scenario? ==> r == m.scenario(n, parent)
    ensures n.ScenarioOutline? ==> r == m.scenarioOutline(n, parent)
    ensures n.Examples? ==> r == m.examples(n, parent)
    ensures n.Example? ==> r == m.example(n, parent)
  {
    match n
    case Feature(_, _, _, _) => m.feature(n, parent)
    case Rule(_, _, _, _) => m.rule(n, parent)
    case Scenario(_, _, _) => m.scenario(n, parent)
    case ScenarioOutline(_, _, _, _) => m.scenarioOutline(n, parent)
    case Examples(_, _, _, _) => m.examples(n, parent)
    case Example(_, _, _) => m.example(n, parent)
  }

  /**
   * The record of one `map` call: the node, the parent value it was given,
   * the value it returned, and the records of the calls it made on the
   * node's elements, in order. `value` of the outermost record is what
   * `map` returns; the inner values are what the Kotlin code discards.
   */
  datatype Mapped<T> = Mapped(node: Node, parent: T, value: T, children: seq<Mapped<T>>)

  /**
   * A well-formed record of `map` under `m`: every call returned the mapper
   * of its node's variant applied to (node, parent), and made one call per
   * element of a container, in order, each with the container's own value
   * as parent.
   */
  ghost predicate MapsBy<T>(m: Mappers<T>, r: Mapped<T>)
    decreases r
  {
    && r.value == Apply(m, r.node, r.parent)
    && |r.children| == |r.node.Elements()|
    && forall i :: 0 <= i < |r.children| ==>
         && r.children[i].node == r.node.Elements()[i]
         && r.children[i].parent == r.value
         && MapsBy(m, r.children[i])
  }

  /** `Node.map`: map `n` with `parent`, then every element with the mapped value. */
  function Map<T>(n: Node, parent: T, m: Mappers<T>): (r: Mapped<T>)
    ensures r.node == n && r.parent == parent
    ensures MapsBy(m, r)
    decreases n, 1
  {
    var mapped := Apply(m, n, parent);
    Mapped(n, parent, mapped, if n.IsContainer() then MapAll(n.children, mapped, m) else [])
  }

  function MapAll<T>(ns: seq<Node>, parent: T, m: Mappers<T>): (rs: seq<Mapped<T>>)
    ensures |rs| == |ns|
    ensures forall i :: 0 <= i < |ns| ==> rs[i].node == ns[i] && rs[i].parent == parent && MapsBy(m, rs[i])
    decreases ns, 0
  {
    if ns == [] then [] else [Map(ns[0], parent, m)] + MapAll(ns[1..], parent, m)
  }

  /** The nodes of a record of `map`, in the order the calls were made. */
  function Visited<T>(r: Mapped<T>): seq<Node>
    decreases r, 1
  {
    [r.node] + VisitedAll(r.children)
  }

  function VisitedAll<T>(rs: seq<Mapped<T>>): seq<Node>
    decreases rs, 0
  {
    if rs == [] then [] else Visited(rs[0]) + VisitedAll(rs[1..])
  }

  /** `map` calls a mapper exactly once per node of the tree, in pre-order. */
  lemma {:induction false} MapVisitsPreorder<T>(n: Node, parent: T, m: Mappers<T>)
    ensures Visited(Map(n, parent, m)) == Preorder(n)
    decreases n, 1
  {
    if n.IsContainer() {
      MapAllVisitsPreorder(n.children, Apply(m, n, parent), m);
    }
  }

  lemma {:induction false} MapAllVisitsPreorder<T>(ns: seq<Node>, parent: T, m: Mappers<T>)
    ensures VisitedAll(MapAll(ns, parent, m)) == PreorderAll(ns)
    decreases ns, 0
  {
    if ns != [] {
      var rs := MapAll(ns, parent, m);
      assert rs[0] == Map(ns[0], parent, m) && rs[1..] == MapAll(ns[1..], parent, m);
      MapVisitsPreorder(ns[0], parent, m);
      MapAllVisitsPreorder(ns[1..], parent, m);
    }
  }
}
