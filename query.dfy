/**
 * Queries of the newer generation: Selector.match and Selector.create,
 * NodesArray (the list find returns, with find and explodeChildren) and
 * AbstractNode.parent, the search up the ancestors.
 */
module Query {
  import opened Prelude
  import opened Arena
  import opened Elements
  import opened Dom
  import opened Selectors

  // ------------------------------------------------------------------ match

  /** instanceof TagNode: tags, and the root, which extends TagNode. */
  predicate IsTagNode(e: Elem) {
    e.TagE? || e.RootE?
  }

  /** instanceof CollectionNode. */
  predicate IsCollectionNode(e: Elem) {
    e.CollectionE?
  }

  /**
   * Selector.match for one stage: the wildcards `**` (anything), `*` (any
   * tag), `$` (text) and `%` (comment); otherwise only tags match, and a
   * truthy tag name, the ids and the classes must all agree.
   */
  function Matches(sel: Selector, e: Elem): (r: bool)
    ensures sel.tag == Some("**") ==> r
    ensures sel.tag == Some("*") && IsTagNode(e) ==> r
    ensures sel.tag == Some("$") && e.TextE? ==> r
    ensures sel.tag == Some("%") && e.CommentE? ==> r
    ensures r && !IsTagNode(e) ==> sel.tag == Some("**") || sel.tag == Some("$") || sel.tag == Some("%")
    ensures r && IsTagNode(e) && sel.tag != Some("**") && sel.tag != Some("*") ==>
      HasAll(e.data.ids, sel.ids) && HasAll(e.data.classes, sel.classes)
    ensures r && IsTagNode(e) && sel.tag.Some? && Truthy(sel.tag.value) && sel.tag.value != e.data.tag ==>
      sel.tag == Some("**") || sel.tag == Some("*")
  {
    if sel.tag == Some("**") then true
    else if sel.tag == Some("*") && IsTagNode(e) then true
    else if sel.tag == Some("$") && e.TextE? then true
    else if sel.tag == Some("%") && e.CommentE? then true
    else if !IsTagNode(e) then false
    else if sel.tag.Some? && Truthy(sel.tag.value) && sel.tag.value != e.data.tag then false
    else if |sel.ids| > 0 && !HasAll(e.data.ids, sel.ids) then false
    else if |sel.classes| > 0 && !HasAll(e.data.classes, sel.classes) then false
    else true
  }

  /** A plain stage: a name that is not a wildcard, with ids and classes. */
  predicate PlainStage(sel: Selector) {
    sel.tag.Some? && Truthy(sel.tag.value) && sel.tag.value !in {"**", "*", "$", "%"}
  }

  /**
   * A plain stage matches exactly the tags with its name that carry all of
   * its ids and all of its classes.
   */
  lemma PlainMatches(sel: Selector, e: Elem)
    requires PlainStage(sel)
    ensures Matches(sel, e) <==>
      IsTagNode(e) && e.data.tag == sel.tag.value && HasAll(e.data.ids, sel.ids) && HasAll(e.data.classes, sel.classes)
  {
  }

  // ------------------------------------------------------------ the matcher

  /** What find and parent test nodes with: a callable, or a compiled selector. */
  datatype Matcher = Pred(f: Elem -> bool) | Css(sel: Selector)

  function Test(m: Matcher, e: Elem): bool {
    match m
    case Pred(f) => f(e)
    case Css(sel) => Matches(sel, e)
  }

  /** The argument create receives. */
  datatype SelectorArg = Callable(f: Elem -> bool) | Code(code: string) | Compiled(sel: Selector) | Other

  const InvalidSelector := "Invalid Selector"

  /**
   * Selector.create: a callable is used as it is, selector text is compiled
   * with fromCss as the code has it (the `\s*>\s` rewrite), and anything
   * else, including text that compiles to null, is rejected.
   */
  function Create(a: SelectorArg): (r: Result<Matcher>)
    ensures a.Callable? ==> r == Ok(Pred(a.f))
    ensures a.Compiled? ==> r == Ok(Css(a.sel))
    ensures a.Other? ==> r == Err(InvalidSelector)
    ensures a.Code? && r.Ok? ==> r.value.Css? && FromCssAsWritten(a.code) == Ok(Some(r.value.sel))
  {
    match a
    case Callable(f) => Ok(Pred(f))
    case Compiled(sel) => Ok(Css(sel))
    case Other => Err(InvalidSelector)
    case Code(code) =>
      match FromCssAsWritten(code)
      case Err(e) => Err(e)
      case Ok(None) => Err(InvalidSelector)
      case Ok(Some(sel)) => Ok(Css(sel))
  }

  /**
   * create rejects text as an invalid selector exactly when it holds only
   * whitespace and `>`, and the text ToCss writes gives back its chain.
   */
  lemma CreateFromCode(code: string, sel: Selector)
    ensures Create(Code(code)) == Err(InvalidSelector) <==>
      forall k :: 0 <= k < |code| ==> IsSpace(code[k]) || code[k] == '>'
    ensures Spellable(sel) ==> Create(Code(ToCss(sel))) == Ok(Css(sel))
  {
    NullExactlyWhenBlank(code);
    if Spellable(sel) {
      RoundTrip(sel);
    }
  }

  // ---------------------------------------------------------------- find

  /** The nodes of ns that pass the test, in order. */
  function Keep(s: Doc, ns: seq<NodeId>, test: Elem -> bool): (r: seq<NodeId>)
    requires forall n :: n in ns ==> n in s
    ensures |r| <= |ns|
    ensures forall m :: m in r <==> m in ns && test(s[m].kind)
  {
    if |ns| == 0 then []
    else (if test(s[ns[0]].kind) then [ns[0]] else []) + Keep(s, ns[1..], test)
  }

  lemma {:induction false} KeepAppend(s: Doc, xs: seq<NodeId>, ys: seq<NodeId>, test: Elem -> bool)
    requires forall n :: n in xs + ys ==> n in s
    ensures Keep(s, xs + ys, test) == Keep(s, xs, test) + Keep(s, ys, test)
  {
    if |xs| == 0 {
      assert xs + ys == ys;
    } else {
      assert (xs + ys)[1..] == xs[1..] + ys;
      KeepAppend(s, xs[1..], ys, test);
    }
  }

  /**
   * One node of the loop in NodesArray.find, with d the depth already
   * decremented: the node if it passes, then, when d is not 0 and the node
   * is one find descends into, what find on its children returns.
   */
  function FindAt(s: Doc, n: NodeId, test: Elem -> bool, descend: Elem -> bool, d: int): (r: seq<NodeId>)
    requires Valid(s) && n in s
    ensures forall m :: m in r ==> m in Preorder(s, n) && test(s[m].kind)
    decreases Bound(s) - Depth(s, n), 1, 0
  {
    (if test(s[n].kind) then [n] else [])
    + (if d != 0 && descend(s[n].kind) then FindBelow(s, n, s[n].children, test, descend, d - 1) else [])
  }

  /** The loop over the listed children of p, at decremented depth d. */
  function FindBelow(s: Doc, p: NodeId, cs: seq<NodeId>, test: Elem -> bool, descend: Elem -> bool, d: int): (r: seq<NodeId>)
    requires Valid(s) && p in s && ChildrenOf(s, p, cs)
    ensures forall m :: m in r ==> m in PreorderBelow(s, p, cs) && test(s[m].kind)
    decreases Bound(s) - Depth(s, p), 0, |cs|
  {
    if |cs| == 0 then []
    else
      ChildDepth(s, p, cs[0]);
      var head := FindAt(s, cs[0], test, descend, d);
      var rest := FindBelow(s, p, cs[1..], test, descend, d);
      assert forall m :: m in head ==> m in PreorderBelow(s, p, cs) by {
        assert PreorderBelow(s, p, cs) == Preorder(s, cs[0]) + PreorderBelow(s, p, cs[1..]);
      }
      head + rest
  }

  /** The loop over an arbitrary list, at decremented depth d. */
  function FindEach(s: Doc, ns: seq<NodeId>, test: Elem -> bool, descend: Elem -> bool, d: int): (r: seq<NodeId>)
    requires Valid(s) && forall n :: n in ns ==> n in s
    ensures forall m :: m in r ==> m in s && test(s[m].kind)
  {
    if |ns| == 0 then []
    else FindAt(s, ns[0], test, descend, d) + FindEach(s, ns[1..], test, descend, d)
  }

  /**
   * NodesArray.find with a callable: depth is decremented once on entry;
   * -1 (or any depth not above 0) never reaches 0 and searches without a
   * limit, 1 tests only the listed nodes.
   */
  function FindList(s: Doc, ns: seq<NodeId>, test: Elem -> bool, descend: Elem -> bool, depth: int): (r: seq<NodeId>)
    requires Valid(s) && forall n :: n in ns ==> n in s
    ensures forall m :: m in r ==> m in s && test(s[m].kind)
  {
    FindEach(s, ns, test, descend, depth - 1)
  }

  /**
   * explodeChildren: the children of the listed nodes, one list after the
   * other; a leaf contributes nothing.
   */
  function Explode(s: Doc, ns: seq<NodeId>): (r: seq<NodeId>)
    requires Valid(s) && forall n :: n in ns ==> n in s
    ensures forall m :: m in r ==> m in s
    ensures forall m :: m in r <==> exists n :: n in ns && IsContainer(s[n].kind) && m in s[n].children
  {
    if |ns| == 0 then []
    else
      var n := ns[0];
      var own := if IsContainer(s[n].kind) then s[n].children else [];
      assert forall m :: m in own ==> m in s by {
        forall m | m in own
          ensures m in s
        {
          var i :| 0 <= i < |own| && own[i] == m;
          assert ChildLink(s, n, s[n].children[i]);
        }
      }
      own + Explode(s, ns[1..])
  }

  /** The last stage of a chain: the one whose matches find returns. */
  function Last(sel: Selector): Selector
    decreases sel
  {
    if sel.next.None? then sel else Last(sel.next.value)
  }

  /**
   * NodesArray.find with a compiled selector: the first stage is searched
   * with the given depth, then each further stage among the children of
   * what the previous one found, with its own depth. The recursive search
   * below the listed nodes uses the match function alone and so never
   * chains.
   */
  function FindSel(s: Doc, ns: seq<NodeId>, sel: Selector, depth: int, descend: Elem -> bool): (r: seq<NodeId>)
    requires Valid(s) && forall n :: n in ns ==> n in s
    ensures forall m :: m in r ==> m in s && Matches(Last(sel), s[m].kind)
    decreases sel
  {
    var found := FindList(s, ns, e => Matches(sel, e), descend, depth);
    if sel.next.None? then found
    else
      var next := sel.next.value;
      FindSel(s, Explode(s, found), next, next.depth, descend)
  }

  /** NodesArray.find with either kind of matcher. */
  function Find(s: Doc, ns: seq<NodeId>, m: Matcher, depth: int, descend: Elem -> bool): (r: seq<NodeId>)
    requires Valid(s) && forall n :: n in ns ==> n in s
    ensures forall x :: x in r ==> x in s
    ensures m.Pred? ==> forall x :: x in r ==> m.f(s[x].kind)
    ensures m.Css? ==> forall x :: x in r ==> Matches(Last(m.sel), s[x].kind)
  {
    match m
    case Pred(f) => FindList(s, ns, f, descend, depth)
    case Css(sel) => FindSel(s, ns, sel, depth, descend)
  }

  // ----------------------------------------------- find against the preorder

  /**
   * Descending into every container without a depth limit, find below one
   * node returns exactly the nodes of its subtree that pass, in document
   * order.
   */
  lemma {:induction false} FindAtAll(s: Doc, n: NodeId, test: Elem -> bool, d: int)
    requires DocValid(s) && n in s && d < 0
    ensures FindAt(s, n, test, IsContainer, d) == Keep(s, Preorder(s, n), test)
    decreases Bound(s) - Depth(s, n), 1, 0
  {
    var cs := s[n].children;
    FindBelowAll(s, n, cs, test, d - 1);
    KeepAppend(s, [n], PreorderBelow(s, n, cs), test);
    assert Keep(s, [n], test) == if test(s[n].kind) then [n] else [] by {
      assert [n][1..] == [];
    }
    if !IsContainer(s[n].kind) {
      assert PreorderBelow(s, n, cs) == [];
    }
  }

  lemma {:induction false} FindBelowAll(s: Doc, p: NodeId, cs: seq<NodeId>, test: Elem -> bool, d: int)
    requires DocValid(s) && p in s && ChildrenOf(s, p, cs) && d < 0
    ensures FindBelow(s, p, cs, test, IsContainer, d) == Keep(s, PreorderBelow(s, p, cs), test)
    decreases Bound(s) - Depth(s, p), 0, |cs|
  {
    if |cs| > 0 {
      ChildDepth(s, p, cs[0]);
      FindAtAll(s, cs[0], test, d);
      FindBelowAll(s, p, cs[1..], test, d);
      KeepAppend(s, Preorder(s, cs[0]), PreorderBelow(s, p, cs[1..]), test);
    }
  }

  /** The subtrees of the listed nodes, one after the other. */
  ghost function Subtrees(s: Doc, ns: seq<NodeId>): (r: seq<NodeId>)
    requires Valid(s) && forall n :: n in ns ==> n in s
    ensures forall m :: m in r ==> m in s
  {
    if |ns| == 0 then [] else Preorder(s, ns[0]) + Subtrees(s, ns[1..])
  }

  /**
   * With the corrected descent into every container, find at depth -1 (or
   * any depth not above 0) returns the nodes of the listed subtrees that
   * pass, in document order.
   */
  lemma {:induction false} FindListAll(s: Doc, ns: seq<NodeId>, test: Elem -> bool, depth: int)
    requires DocValid(s) && (forall n :: n in ns ==> n in s) && depth <= 0
    ensures FindList(s, ns, test, IsContainer, depth) == Keep(s, Subtrees(s, ns), test)
  {
    if |ns| > 0 {
      FindAtAll(s, ns[0], test, depth - 1);
      FindListAll(s, ns[1..], test, depth);
      KeepAppend(s, Preorder(s, ns[0]), Subtrees(s, ns[1..]), test);
    }
  }

  /** At depth 1 find tests only the listed nodes, whatever it descends into. */
  lemma {:induction false} FindListShallow(s: Doc, ns: seq<NodeId>, test: Elem -> bool, descend: Elem -> bool)
    requires Valid(s) && forall n :: n in ns ==> n in s
    ensures FindList(s, ns, test, descend, 1) == Keep(s, ns, test)
  {
    if |ns| > 0 {
      FindListShallow(s, ns[1..], test, descend);
    }
  }

  /** No node is a CollectionNode: what the parser builds. */
  predicate NoCollections(s: Doc) {
    forall n :: n in s ==> !s[n].kind.CollectionE?
  }

  /**
   * As written, find descends only into CollectionNode, which TagNode and
   * RootNode do not extend: in a parsed document it never looks below the
   * listed nodes, whatever the depth.
   */
  lemma {:induction false} FindAsWrittenShallow(s: Doc, ns: seq<NodeId>, test: Elem -> bool, depth: int)
    requires Valid(s) && (forall n :: n in ns ==> n in s) && NoCollections(s)
    ensures FindList(s, ns, test, IsCollectionNode, depth) == Keep(s, ns, test)
  {
    if |ns| > 0 {
      var n := ns[0];
      assert FindAt(s, n, test, IsCollectionNode, depth - 1) == if test(s[n].kind) then [n] else [];
      assert FindList(s, ns, test, IsCollectionNode, depth)
        == FindAt(s, n, test, IsCollectionNode, depth - 1) + FindList(s, ns[1..], test, IsCollectionNode, depth);
      FindAsWrittenShallow(s, ns[1..], test, depth);
    }
  }

  /**
   * A root with one tag, which has one child tag p: as written find on the
   * root's children does not return p; corrected, it does.
   */
  lemma FindMissesGrandchild(s: Doc, root: NodeId, div: NodeId, p: NodeId, test: Elem -> bool)
    requires DocValid(s) && root in s && div in s && p in s && NoCollections(s)
    requires s[root].children == [div] && s[div].children == [p] && test(s[p].kind)
    ensures p !in FindList(s, s[root].children, test, IsCollectionNode, -1)
    ensures p in FindList(s, s[root].children, test, IsContainer, -1)
  {
    ChildDepth(s, root, div);
    ChildDepth(s, div, p);
    FindAsWrittenShallow(s, [div], test, -1);
    FindListAll(s, [div], test, -1);
    assert p in Preorder(s, div) by {
      assert s[div].children[0] == p;
      assert PreorderBelow(s, div, [p]) == Preorder(s, p) + PreorderBelow(s, div, []);
    }
    assert Subtrees(s, [div]) == Preorder(s, div) + [];
  }

  // ----------------------------------------------------------------- parent

  /** What parent() returns: null, one node, or the list a chained find gives. */
  datatype Found = NoNode | One(id: NodeId) | Many(ids: seq<NodeId>)

  /**
   * AbstractNode.parent with a matcher: null when there is no parent, the
   * parent is the root or depth is 0; the parent if it matches (or, for a
   * chained selector, the next stage searched among its children);
   * otherwise the parent's own parent(), with depth one less.
   */
  function ParentOf(s: Doc, n: NodeId, m: Matcher, depth: int, descend: Elem -> bool): (r: Found)
    requires DocValid(s) && n in s
    ensures r.One? ==> r.id in s && !s[r.id].kind.RootE? && Test(m, s[r.id].kind)
    decreases Depth(s, n)
  {
    match s[n].parent
    case None => NoNode
    case Some(p) =>
      if s[p].kind.RootE? || depth == 0 then NoNode
      else if Test(m, s[p].kind) then
        if m.Css? && m.sel.next.Some? then
          var next := m.sel.next.value;
          Many(FindSel(s, s[p].children, next, next.depth, descend))
        else One(p)
      else
        ParentDepth(s, n);
        ParentOf(s, p, m, depth - 1, descend)
  }

  /** The nodes parent() walks through: the parents up to, not including, a root. */
  ghost function Ancestors(s: Doc, n: NodeId): (r: seq<NodeId>)
    requires DocValid(s) && n in s
    ensures forall a :: a in r ==> a in s && !s[a].kind.RootE?
    decreases Depth(s, n)
  {
    match s[n].parent
    case None => []
    case Some(p) =>
      if s[p].kind.RootE? then []
      else
        ParentDepth(s, n);
        [p] + Ancestors(s, p)
  }

  /** The first k of xs, or all of them when k is negative. */
  function Limit(xs: seq<NodeId>, k: int): (r: seq<NodeId>)
    ensures k < 0 || k >= |xs| ==> r == xs
    ensures 0 <= k < |xs| ==> r == xs[..k]
  {
    if k < 0 || k >= |xs| then xs else xs[..k]
  }

  /** The first node of xs that passes f. */
  function FirstMatch(s: Doc, xs: seq<NodeId>, f: Elem -> bool): (r: Option<NodeId>)
    requires forall x :: x in xs ==> x in s
    ensures r.None? <==> forall i :: 0 <= i < |xs| ==> !f(s[xs[i]].kind)
    ensures r.Some? ==> exists i :: 0 <= i < |xs| && xs[i] == r.value && f(s[r.value].kind)
                                    && forall j :: 0 <= j < i ==> !f(s[xs[j]].kind)
  {
    if |xs| == 0 then None
    else if f(s[xs[0]].kind) then Some(xs[0])
    else
      var r := FirstMatch(s, xs[1..], f);
      assert forall i :: 1 <= i < |xs| ==> xs[i] == xs[1..][i - 1];
      if r.Some? then
        var i :| 0 <= i < |xs[1..]| && xs[1..][i] == r.value && f(s[r.value].kind)
                 && forall j :: 0 <= j < i ==> !f(s[xs[1..][j]].kind);
        assert xs[i + 1] == r.value;
        r
      else r
  }

  /**
   * With a callable, parent() returns the first of the ancestors below the
   * root, among the first depth of them (all of them for a negative
   * depth), that passes; null when there is none.
   */
  lemma {:induction false} ParentIsFirstMatch(s: Doc, n: NodeId, f: Elem -> bool, depth: int, descend: Elem -> bool)
    requires DocValid(s) && n in s
    ensures ParentOf(s, n, Pred(f), depth, descend) ==
      match FirstMatch(s, Limit(Ancestors(s, n), depth), f)
      case None => NoNode
      case Some(a) => One(a)
    decreases Depth(s, n)
  {
    var A := Ancestors(s, n);
    if s[n].parent.Some? {
      var p := s[n].parent.value;
      if !s[p].kind.RootE? {
        ParentDepth(s, n);
        assert A == [p] + Ancestors(s, p);
        if depth != 0 && !f(s[p].kind) {
          ParentIsFirstMatch(s, p, f, depth - 1, descend);
          assert Limit(A, depth)[1..] == Limit(Ancestors(s, p), depth - 1);
          assert Limit(A, depth)[0] == p;
        }
        if depth == 0 {
          assert Limit(A, depth) == [];
        }
      }
    }
  }

  // ------------------------------------------------------------- NodesArray

  /** $nodes[$i]: null (with a notice) when there is no element i. */
  function At(xs: seq<NodeId>, i: int): (r: Option<NodeId>)
    ensures r.Some? <==> 0 <= i < |xs|
    ensures r.Some? ==> r.value == xs[i]
  {
    if 0 <= i < |xs| then Some(xs[i]) else None
  }

  /** NodesArray: a list of nodes that add and addRange extend in place. */
  class NodesArray {
    var nodes: seq<NodeId>

    constructor (init: seq<NodeId>)
      ensures nodes == init
    {
      nodes := init;
    }

    function Count(): (r: nat)
      reads this
      ensures r == |nodes|
    {
      |nodes|
    }

    method First() returns (r: Option<NodeId>)
      ensures r.Some? <==> |nodes| > 0
      ensures r.Some? ==> r.value == nodes[0]
    {
      r := At(nodes, 0);
    }

    method Nth(i: int) returns (r: Option<NodeId>)
      ensures r.Some? <==> 0 <= i < |nodes|
      ensures r.Some? ==> r.value == nodes[i]
    {
      r := At(nodes, i);
    }

    method Last() returns (r: Option<NodeId>)
      ensures r.Some? <==> |nodes| > 0
      ensures r.Some? ==> r.value == nodes[|nodes| - 1]
    {
      r := At(nodes, |nodes| - 1);
    }

    method Add(n: NodeId)
      modifies this
      ensures nodes == old(nodes) + [n]
    {
      nodes := nodes + [n];
    }

    method AddRange(ns: seq<NodeId>)
      modifies this
      ensures nodes == old(nodes) + ns
    {
      var i := 0;
      while i < |ns|
        invariant 0 <= i <= |ns|
        invariant nodes == old(nodes) + ns[..i]
      {
        nodes := nodes + [ns[i]];
        assert ns[..i + 1] == ns[..i] + [ns[i]];
        i := i + 1;
      }
      assert ns[..i] == ns;
    }
  }
}
