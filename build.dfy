/**
 * buildTree of the newer generation: the tokens, in order, become nodes
 * under a fresh RootNode. Texts, comments and self-closing tags are added
 * to the current element, an opening tag is added and becomes current, and
 * a close tag resolves to an element (the current one, the nearest
 * ancestor with its name, or the root), flattens what is still open below
 * it, marks it closed and makes its parent current. At the end, and when a
 * close tag resolves to the root, closeNodes marks closed every open
 * element it can reach through open elements.
 *
 * The proof keeps, beside the tree, the path of open elements from the
 * root to the current element and the list of created nodes: every open
 * element with children is on that path, and the document order of the
 * tree is the order of the tokens.
 */
module Build {
  import opened Prelude
  import opened Arena
  import opened Spine
  import opened Elements
  import opened Dom
  import opened Tokens
  import opened TreeOps
  import opened Edit
  import opened Flatten
  import opened Query

  // ------------------------------------------------------------- the nodes

  /** The node a text, comment, self-closing or opening token creates. */
  function ElemOf(t: Token): (e: Elem)
    requires t.kind != TagClose
    ensures t.kind == Text ==> e == TextE(t.text)
    ensures t.kind == Comment ==> e == CommentE(t.text)
    ensures t.kind == TagOpen ==> IsOpenTag(e) && e.data.tag == t.tag
    ensures t.kind == TagSelf ==> e.TagE? && e.data.closing == Self && e.data.tag == t.tag
  {
    match t.kind
    case Text => TextE(t.text)
    case Comment => CommentE(t.text)
    case TagSelf => TagE(NewTagData(t.tag, t.rawAtt, Self))
    case TagOpen => TagE(NewTagData(t.tag, t.rawAtt, No))
  }

  /** The nodes the tokens create, in token order: one per token but the close tags. */
  function Made(tokens: seq<Token>): (r: seq<Elem>)
    ensures |r| <= |tokens|
  {
    if |tokens| == 0 then []
    else
      var t := tokens[|tokens| - 1];
      Made(tokens[..|tokens| - 1]) + (if t.kind == TagClose then [] else [ElemOf(t)])
  }

  /** The text and comment texts of the tokens, joined. */
  function TokenTexts(tokens: seq<Token>): string {
    if |tokens| == 0 then ""
    else
      var t := tokens[|tokens| - 1];
      TokenTexts(tokens[..|tokens| - 1]) + (if t.kind == Text || t.kind == Comment then t.text else "")
  }

  /** setClosing(YES) on a tag or the root. */
  function SetClosed(e: Elem): (r: Elem)
    ensures !IsOpenTag(r) && OwnText(r) == OwnText(e)
    ensures HasList(r) == HasList(e) && IsContainer(r) == IsContainer(e) && r.RootE? == e.RootE?
  {
    match e
    case TagE(d) => TagE(d.(closing := Yes))
    case RootE(d) => RootE(d.(closing := Yes))
    case _ => e
  }

  /** A node's kind is the one its token made, or that element closed later. */
  predicate Agrees(a: Elem, m: Elem) {
    a == m || (IsOpenTag(m) && a == SetClosed(m))
  }

  /** Closing a node keeps it in agreement with its token. */
  lemma AgreesClosed(a: Elem, m: Elem)
    requires Agrees(a, m) && IsOpenTag(a)
    ensures Agrees(SetClosed(a), m) && !IsOpenTag(SetClosed(a))
  {
  }

  /** The texts of the nodes made are the texts of the tokens. */
  lemma {:induction false} MadeTexts(tokens: seq<Token>)
    ensures ElemTexts(Made(tokens)) == TokenTexts(tokens)
    decreases |tokens|
  {
    if |tokens| > 0 {
      var init := tokens[..|tokens| - 1];
      var t := tokens[|tokens| - 1];
      MadeTexts(init);
      ElemTextsAppend(Made(init), if t.kind == TagClose then [] else [ElemOf(t)]);
      if t.kind != TagClose {
        assert ElemTexts([ElemOf(t)]) == OwnText(ElemOf(t)) + ElemTexts([]);
      }
    }
  }

  function ElemTexts(es: seq<Elem>): string {
    if |es| == 0 then "" else OwnText(es[0]) + ElemTexts(es[1..])
  }

  lemma {:induction false} ElemTextsAppend(xs: seq<Elem>, ys: seq<Elem>)
    ensures ElemTexts(xs + ys) == ElemTexts(xs) + ElemTexts(ys)
    decreases |xs|
  {
    if |xs| > 0 {
      assert (xs + ys)[1..] == xs[1..] + ys;
      ElemTextsAppend(xs[1..], ys);
    } else {
      assert xs + ys == ys;
    }
  }

  // ---------------------------------------------------------- the close tag

  /** A tag with the given name (the root, a TagNode, has the name ''). */
  function HasTag(name: string): Elem -> bool {
    e => HasList(e) && e.data.tag == name
  }

  const UndefinedBuild := "Call to undefined method Selector::build()"

  /**
   * parent($name) as written: an empty name (PHP's empty(): '' or '0')
   * returns the parent; any other name reaches Selector::build, which
   * Selector does not define.
   */
  function ParentNamedAsWritten(s: Doc, n: NodeId, name: string): (r: Result<Option<NodeId>>)
    requires n in s
    ensures r.Err? <==> Truthy(name)
    ensures r.Ok? ==> r.value == s[n].parent
  {
    if !Truthy(name) then Ok(s[n].parent) else Err(UndefinedBuild)
  }

  /**
   * parent($name) as intended: the nearest ancestor below the root that is
   * a tag with that name, found with parent()'s own walk.
   */
  function ParentNamed(s: Doc, n: NodeId, name: string): (r: Option<NodeId>)
    requires DocValid(s) && n in s
    ensures !Truthy(name) ==> r == s[n].parent
    ensures Truthy(name) && r.Some? ==> r.value in Ancestors(s, n) && HasTag(name)(s[r.value].kind)
    ensures Truthy(name) && r.None? ==> forall a :: a in Ancestors(s, n) ==> !HasTag(name)(s[a].kind)
    ensures Truthy(name) ==> r == FirstMatch(s, Ancestors(s, n), HasTag(name))
  {
    if !Truthy(name) then s[n].parent
    else
      ParentIsFirstMatch(s, n, HasTag(name), -1, IsContainer);
      match ParentOf(s, n, Pred(HasTag(name)), -1, IsContainer)
      case One(a) => Some(a)
      case _ => None
  }

  /**
   * The element a close tag resolves to: the current one when the names
   * agree, otherwise parent($name), or the root when that gives nothing.
   */
  function Opening(s: Doc, root: NodeId, current: NodeId, name: string): (o: NodeId)
    requires DocValid(s) && current in s && HasList(s[current].kind)
    ensures root in s ==> o in s
    ensures o == current || o == root || o in Ancestors(s, current) || Some(o) == s[current].parent
  {
    if s[current].kind.data.tag == name then current
    else match ParentNamed(s, current, name)
      case Some(a) => a
      case None => root
  }

  /**
   * closeNodes(n): every open tag reached from n through open tags (the
   * nodes getOpenChildren would collect) is marked closed; nothing else
   * changes.
   */
  function CloseNodes(s: Doc, n: NodeId): (t: Doc)
    requires Valid(s) && n in s
    ensures SameShape(s, t)
  {
    var reached := FlatBelow(s, n, s[n].children, IsOpenTag);
    map m | m in s :: if m in reached && IsOpenTag(s[m].kind) then s[m].(kind := SetClosed(s[m].kind)) else s[m]
  }

  /**
   * A close tag, once resolved to o: getOpenChildren(o) and
   * addChildren, setClosing(YES), and closeNodes when o is the root.
   */
  function CloseAt(s: Doc, o: NodeId): (t: Doc)
    requires Valid(s) && o in s
    ensures t.Keys == s.Keys
    ensures !IsOpenTag(t[o].kind)
  {
    var f := Flattened(s, o, IsOpenTag);
    FlattenValid(s, o, IsOpenTag);
    FlattenedShape(s, o, IsOpenTag);
    var g := f[o := f[o].(kind := SetClosed(f[o].kind))];
    assert SameShape(f, g);
    SameShapeValid(f, g);
    if g[o].kind.RootE? then CloseNodes(g, o) else g
  }

  /** A text, comment or tag token: a new node w, added to the current element. */
  function AddNew(s: Doc, current: NodeId, w: NodeId, e: Elem): (t: Doc)
    requires current in s && HasList(s[current].kind) && w !in s
    ensures t.Keys == s.Keys + {w}
  {
    AddChild(s[w := Rec(e, None, [])], current, w)
  }

  // ------------------------------------------------------- the invariant

  /** The tree: valid, under its root, with every node below the next fresh id. */
  ghost predicate TreeOk(s: Doc, root: NodeId, next: nat) {
    && DocValid(s)
    && root in s && s[root].kind == RootE(RootData()) && s[root].parent == Some(root)
    && (forall m :: m in s ==> m < next)
  }

  /**
   * The open path: from the root to the current element, each the last
   * child of the one before, all open tags below the root; and every open
   * tag that has children is on it.
   */
  ghost predicate PathOk(s: Doc, root: NodeId, chain: seq<NodeId>) {
    && IsSpine(s, chain) && chain[0] == root
    && (forall i :: 0 < i < |chain| ==> IsOpenTag(s[chain[i]].kind))
    && (forall m :: m in s && IsOpenTag(s[m].kind) && s[m].children != [] ==> m in chain)
  }

  /** The document order is the root followed by the created nodes, each agreeing with its token. */
  ghost predicate OrderOk(s: Doc, root: NodeId, order: seq<NodeId>, made: seq<Elem>)
    requires DocValid(s) && root in s
  {
    && Preorder(s, root) == [root] + order
    && (forall m :: m in s ==> m == root || m in order)
    && |order| == |made|
    && (forall j :: 0 <= j < |order| ==> order[j] in s && Agrees(s[order[j]].kind, made[j]))
  }

  ghost predicate Building(s: Doc, root: NodeId, next: nat, chain: seq<NodeId>, order: seq<NodeId>, made: seq<Elem>) {
    TreeOk(s, root, next) && PathOk(s, root, chain) && OrderOk(s, root, order, made)
  }

  /** A fresh RootNode alone. */
  lemma InitialBuilding(root: NodeId)
    ensures Building(map[root := Rec(RootE(RootData()), Some(root), [])], root, root + 1, [root], [], [])
  {
    var s := map[root := Rec(RootE(RootData()), Some(root), [])];
    assert DepthF(s, root, 0).Some?;
    assert Valid(s);
    assert Preorder(s, root) == [root] + PreorderBelow(s, root, []);
  }

  // ------------------------------------------------------ adding a node

  /** t is s with a new leaf w, of kind e, at the end of p's list. */
  ghost predicate Appended(s: Doc, t: Doc, p: NodeId, w: NodeId, e: Elem) {
    && p in s && w !in s && t.Keys == s.Keys + {w}
    && t[w] == Rec(e, Some(p), [])
    && t[p] == s[p].(children := s[p].children + [w])
    && forall m :: m in s && m != p ==> t[m] == s[m]
  }

  /** AddNew on a valid document appends a leaf and keeps the document valid. */
  lemma AddNewShape(s: Doc, p: NodeId, w: NodeId, e: Elem)
    requires DocValid(s) && p in s && HasList(s[p].kind) && w !in s
    ensures DocValid(AddNew(s, p, w, e)) && Appended(s, AddNew(s, p, w, e), p, w, e)
  {
    var s1 := s[w := Rec(e, None, [])];
    FreshDocValid(s, w, e);
    ChildlessNotAncestor(s1, w, p);
    AddChildValid(s1, p, w);
    DocValidLinked(s1);
    AddChildSpec(s1, p, w);
  }

  lemma AppendTree(s: Doc, t: Doc, root: NodeId, next: nat, e: Elem, p: NodeId)
    requires TreeOk(s, root, next) && Appended(s, t, p, next, e) && DocValid(t)
    ensures TreeOk(t, root, next + 1)
  {
  }

  lemma AppendPath(s: Doc, t: Doc, root: NodeId, next: nat, chain: seq<NodeId>, e: Elem)
    requires TreeOk(s, root, next) && PathOk(s, root, chain)
    requires Appended(s, t, chain[|chain| - 1], next, e) && DocValid(t)
    ensures PathOk(t, root, if IsOpenTag(e) then chain + [next] else chain)
  {
    var p := chain[|chain| - 1];
    assert IsTop(s, root);
    SpineLinks(s, chain);
    forall i | 0 <= i < |chain| - 1
      ensures chain[i] in t && t[chain[i]].children == s[chain[i]].children
    {
      assert chain[i] != p;
    }
    SpineAppend(s, t, chain, next);
    AppendPathKinds(s, t, chain, next, e);
  }

  /** After the append the path is still all open tags, and no other open tag has children. */
  lemma AppendPathKinds(s: Doc, t: Doc, chain: seq<NodeId>, w: NodeId, e: Elem)
    requires |chain| > 0 && (forall i :: 0 <= i < |chain| ==> chain[i] in s)
    requires Appended(s, t, chain[|chain| - 1], w, e)
    requires forall i :: 0 < i < |chain| ==> IsOpenTag(s[chain[i]].kind)
    requires forall m :: m in s && IsOpenTag(s[m].kind) && s[m].children != [] ==> m in chain
    ensures var c := if IsOpenTag(e) then chain + [w] else chain;
      && (forall i :: 0 < i < |c| ==> IsOpenTag(t[c[i]].kind))
      && (forall m :: m in t && IsOpenTag(t[m].kind) && t[m].children != [] ==> m in c)
  {
    var p := chain[|chain| - 1];
    assert forall i :: 0 <= i < |chain| ==> t[chain[i]].kind == s[chain[i]].kind;
    forall m | m in t && IsOpenTag(t[m].kind) && t[m].children != []
      ensures m in chain
    {
      if m != p {
        assert m != w && t[m] == s[m];
      }
    }
  }

  /** Appending a leaf to the end of the path adds it last to the preorder of the root. */
  lemma AppendRootPreorder(s: Doc, t: Doc, chain: seq<NodeId>, w: NodeId, e: Elem)
    requires Valid(s) && Valid(t) && |chain| > 0 && IsSpine(s, chain) && IsTop(s, chain[0])
    requires Appended(s, t, chain[|chain| - 1], w, e)
    ensures chain[0] in t && Preorder(t, chain[0]) == Preorder(s, chain[0]) + [w]
  {
    var p := chain[|chain| - 1];
    AppendLeafPreorder(s, t, p, w);
    assert SameOutside(s, t, p) by {
      forall m | m in s && m !in Preorder(s, p)
        ensures m in t && t[m].children == s[m].children
      {
        assert p in Preorder(s, p);
      }
    }
    SpinePreorder(s, t, chain, |chain| - 1, [w], 0);
  }

  lemma AppendOrder(s: Doc, t: Doc, root: NodeId, next: nat, chain: seq<NodeId>, order: seq<NodeId>, made: seq<Elem>, e: Elem)
    requires TreeOk(s, root, next) && PathOk(s, root, chain) && OrderOk(s, root, order, made)
    requires Appended(s, t, chain[|chain| - 1], next, e) && DocValid(t)
    ensures OrderOk(t, root, order + [next], made + [e])
  {
    assert Valid(s) && Valid(t);
    AppendRootPreorder(s, t, chain, next, e);
    AppendAgrees(s, t, chain[|chain| - 1], order, made, next, e);
  }

  /** The appended node agrees with its token, and every other node keeps its kind. */
  lemma AppendAgrees(s: Doc, t: Doc, p: NodeId, order: seq<NodeId>, made: seq<Elem>, w: NodeId, e: Elem)
    requires Appended(s, t, p, w, e) && |order| == |made|
    requires forall j :: 0 <= j < |order| ==> order[j] in s && Agrees(s[order[j]].kind, made[j])
    ensures forall j :: 0 <= j < |order| + 1 ==> (order + [w])[j] in t && Agrees(t[(order + [w])[j]].kind, (made + [e])[j])
  {
    var order1 := order + [w];
    var made1 := made + [e];
    forall j | 0 <= j < |order1|
      ensures order1[j] in t && Agrees(t[order1[j]].kind, made1[j])
    {
      if j < |order| {
        assert order1[j] == order[j] && made1[j] == made[j];
        assert t[order[j]].kind == s[order[j]].kind;
      } else {
        assert t[w].kind == e;
      }
    }
  }

  /** The current element can take children. */
  lemma CurrentHasList(s: Doc, root: NodeId, next: nat, chain: seq<NodeId>)
    requires TreeOk(s, root, next) && PathOk(s, root, chain)
    ensures HasList(s[chain[|chain| - 1]].kind)
  {
  }

  /** Adding a node for a token keeps the invariant, with the node appended to the order. */
  lemma AppendStep(s: Doc, root: NodeId, next: nat, chain: seq<NodeId>, order: seq<NodeId>, made: seq<Elem>, e: Elem)
    requires Building(s, root, next, chain, order, made)
    ensures HasList(s[chain[|chain| - 1]].kind)
    ensures var t := AddNew(s, chain[|chain| - 1], next, e);
      Building(t, root, next + 1, if IsOpenTag(e) then chain + [next] else chain, order + [next], made + [e])
  {
    var p := chain[|chain| - 1];
    CurrentHasList(s, root, next, chain);
    AddNewShape(s, p, next, e);
    var t := AddNew(s, p, next, e);
    AppendTree(s, t, root, next, e, p);
    AppendPath(s, t, root, next, chain, e);
    AppendOrder(s, t, root, next, chain, order, made, e);
  }

  // ------------------------------------------------------ closing a tag

  /** Flattening below o leaves every node outside o's subtree as it was. */
  lemma FlatUnchanged(s: Doc, o: NodeId, m: NodeId)
    requires Valid(s) && o in s && m in s && m !in Preorder(s, o)
    ensures Flattened(s, o, IsOpenTag)[m] == s[m]
  {
    var cs := s[o].children;
    if m in FlatBelow(s, o, cs, IsOpenTag) {
      FlatSub(s, o, cs, IsOpenTag, m);
    }
  }

  /** Flattening below a container keeps the document valid. */
  lemma FlatDocValid(s: Doc, o: NodeId)
    requires DocValid(s) && o in s && IsContainer(s[o].kind)
    ensures DocValid(Flattened(s, o, IsOpenTag))
  {
    var f := Flattened(s, o, IsOpenTag);
    var flat := FlatBelow(s, o, s[o].children, IsOpenTag);
    FlattenValid(s, o, IsOpenTag);
    FlattenedShape(s, o, IsOpenTag);
    forall m | m in s
      ensures f[m].children != s[m].children ==> IsContainer(s[m].kind)
      ensures f[m].parent == Some(m) ==> s[m].parent == Some(m)
    {
      if m in flat {
        FlatDeeper(s, o, s[o].children, IsOpenTag, m);
      }
    }
    DocValidFrom(s, f);
  }

  /** The later nodes of the open path are all collected by flattening below an earlier one. */
  lemma {:induction false} SpineFlat(s: Doc, root: NodeId, chain: seq<NodeId>, k: nat, j: nat)
    requires Valid(s) && PathOk(s, root, chain) && k < j < |chain|
    ensures chain[j] in FlatBelow(s, chain[k], s[chain[k]].children, IsOpenTag)
    decreases j
  {
    var o := chain[k];
    FlatClosed(s, o, s[o].children, IsOpenTag);
    assert LastChild(s, chain[j - 1], chain[j]);
    var cs := s[chain[j - 1]].children;
    assert chain[j] == cs[|cs| - 1];
    if j > k + 1 {
      SpineFlat(s, root, chain, k, j - 1);
      assert IsOpenTag(s[chain[j - 1]].kind);
    }
  }

  /** The state right after getOpenChildren and addChildren on the k-th node of the path. */
  ghost predicate Flat(f: Doc, root: NodeId, next: nat, chain: seq<NodeId>, k: nat, order: seq<NodeId>, made: seq<Elem>) {
    && TreeOk(f, root, next) && k < |chain| && IsSpine(f, chain[..k + 1]) && chain[0] == root
    && (forall i :: 0 < i <= k ==> IsOpenTag(f[chain[i]].kind))
    && (forall m :: m in f && IsOpenTag(f[m].kind) && f[m].children != [] ==> m == chain[k] || m in chain[..k])
    && OrderOk(f, root, order, made)
  }

  /** Flattening below the k-th node of the path keeps the path up to it. */
  lemma FlatSpine(s: Doc, root: NodeId, next: nat, chain: seq<NodeId>, k: nat, f: Doc)
    requires TreeOk(s, root, next) && PathOk(s, root, chain) && k < |chain|
    requires f == Flattened(s, chain[k], IsOpenTag)
    ensures IsSpine(f, chain[..k + 1])
  {
    var o := chain[k];
    FlattenedShape(s, o, IsOpenTag);
    assert IsTop(s, root);
    SpineLinks(s, chain);
    SpineDepth(s, chain, k);
    forall i | 0 < i <= k
      ensures LastChild(f, chain[i - 1], chain[i])
    {
      assert LastChild(s, chain[i - 1], chain[i]);
      SpineDepth(s, chain, i - 1);
      if chain[i - 1] in Preorder(s, o) {
        PreorderMember(s, o, chain[i - 1]);
      }
      FlatUnchanged(s, o, chain[i - 1]);
    }
    var c := chain[..k + 1];
    forall i | 0 < i < |c|
      ensures LastChild(f, c[i - 1], c[i])
    {
      assert c[i - 1] == chain[i - 1] && c[i] == chain[i];
    }
  }

  /** After flattening below the k-th node, only nodes of the path up to it hold children and are open. */
  lemma FlatOpenOnPath(s: Doc, root: NodeId, next: nat, chain: seq<NodeId>, k: nat, f: Doc)
    requires TreeOk(s, root, next) && PathOk(s, root, chain) && k < |chain|
    requires f == Flattened(s, chain[k], IsOpenTag)
    ensures forall m :: m in f && IsOpenTag(f[m].kind) && f[m].children != [] ==> m == chain[k] || m in chain[..k]
  {
    var o := chain[k];
    var flat := FlatBelow(s, o, s[o].children, IsOpenTag);
    FlattenedShape(s, o, IsOpenTag);
    forall m | m in f && IsOpenTag(f[m].kind) && f[m].children != []
      ensures m == o || m in chain[..k]
    {
      if m != o && m !in flat {
        assert f[m] == s[m];
        var j :| 0 <= j < |chain| && chain[j] == m;
        if j > k {
          SpineFlat(s, root, chain, k, j);
        }
        assert j < k;
        assert chain[..k][j] == m;
      }
    }
  }

  lemma FlatPath(s: Doc, root: NodeId, next: nat, chain: seq<NodeId>, k: nat)
    requires TreeOk(s, root, next) && PathOk(s, root, chain) && k < |chain|
    ensures var f := Flattened(s, chain[k], IsOpenTag);
      Valid(f) && f.Keys == s.Keys && IsSpine(f, chain[..k + 1])
      && (forall i :: 0 <= i <= k ==> f[chain[i]].kind == s[chain[i]].kind)
      && (forall m :: m in f && IsOpenTag(f[m].kind) && f[m].children != [] ==> m == chain[k] || m in chain[..k])
  {
    var f := Flattened(s, chain[k], IsOpenTag);
    FlattenValid(s, chain[k], IsOpenTag);
    FlattenedShape(s, chain[k], IsOpenTag);
    FlatSpine(s, root, next, chain, k, f);
    FlatOpenOnPath(s, root, next, chain, k, f);
  }

  lemma FlatOrder(s: Doc, root: NodeId, next: nat, chain: seq<NodeId>, k: nat, order: seq<NodeId>, made: seq<Elem>)
    requires TreeOk(s, root, next) && PathOk(s, root, chain) && OrderOk(s, root, order, made) && k < |chain|
    ensures var f := Flattened(s, chain[k], IsOpenTag);
      DocValid(f) && root in f && OrderOk(f, root, order, made)
  {
    var o := chain[k];
    var f := Flattened(s, o, IsOpenTag);
    FlattenValid(s, o, IsOpenTag);
    FlattenedShape(s, o, IsOpenTag);
    FlatDocValid(s, o);
    assert IsTop(s, root);
    FlattenPreservesPreorder(s, o, IsOpenTag);
    assert SameOutside(s, f, o) by {
      forall m | m in s && m !in Preorder(s, o)
        ensures m in f && f[m].children == s[m].children
      {
        FlatUnchanged(s, o, m);
      }
    }
    assert Preorder(f, o) == Preorder(s, o) + [];
    SpinePreorder(s, f, chain, k, [], 0);
    assert Preorder(f, root) == Preorder(s, root) + [];
  }

  /** getOpenChildren and addChildren on the k-th node of the path. */
  lemma FlatStep(s: Doc, root: NodeId, next: nat, chain: seq<NodeId>, k: nat, order: seq<NodeId>, made: seq<Elem>)
    requires Building(s, root, next, chain, order, made) && k < |chain|
    ensures var f := Flattened(s, chain[k], IsOpenTag);
      Flat(f, root, next, chain, k, order, made)
  {
    var o := chain[k];
    var f := Flattened(s, o, IsOpenTag);
    FlattenedShape(s, o, IsOpenTag);
    FlatPath(s, root, next, chain, k);
    FlatOrder(s, root, next, chain, k, order, made);
    assert f[root].kind == s[root].kind && f[root].parent == s[root].parent by {
      if o != root {
        assert IsTop(s, root);
        SpineLinks(s, chain);
        if root in Preorder(s, o) {
          PreorderMember(s, o, root);
        }
        FlatUnchanged(s, o, root);
      }
    }
    assert TreeOk(f, root, next);
  }

  /** Changing kinds without turning containers into leaves or roots into tags keeps a document valid. */
  lemma SameShapeDocValid(s: Doc, t: Doc)
    requires DocValid(s) && SameShape(s, t)
    requires forall m :: m in s ==> IsContainer(t[m].kind) == IsContainer(s[m].kind) && t[m].kind.RootE? == s[m].kind.RootE?
    ensures DocValid(t)
    ensures forall x :: x in s ==> Preorder(t, x) == Preorder(s, x)
  {
    SameShapeValid(s, t);
  }

  /** g is f with o marked closed. */
  ghost predicate ClosedOne(f: Doc, g: Doc, o: NodeId) {
    && o in f && SameShape(f, g)
    && g[o].kind == SetClosed(f[o].kind)
    && forall m :: m in f && m != o ==> g[m] == f[m]
  }

  lemma CloseTagTree(f: Doc, g: Doc, root: NodeId, next: nat, chain: seq<NodeId>, k: nat, order: seq<NodeId>, made: seq<Elem>)
    requires Flat(f, root, next, chain, k, order, made) && k >= 1 && ClosedOne(f, g, chain[k])
    ensures TreeOk(g, root, next) && g[chain[k]].parent == Some(chain[k - 1])
    ensures NoDup(chain[..k + 1])
  {
    var path := chain[..k + 1];
    assert path[0] == root && IsTop(f, root);
    SpineLinks(f, path);
    assert path[k] == chain[k] && path[k - 1] == chain[k - 1];
    SameShapeDocValid(f, g);
    assert root != chain[k] by {
      assert path[0] != path[k];
    }
  }

  lemma CloseTagPath(f: Doc, g: Doc, root: NodeId, next: nat, chain: seq<NodeId>, k: nat, order: seq<NodeId>, made: seq<Elem>)
    requires Flat(f, root, next, chain, k, order, made) && k >= 1 && ClosedOne(f, g, chain[k])
    requires NoDup(chain[..k + 1])
    ensures PathOk(g, root, chain[..k])
  {
    var o := chain[k];
    var path := chain[..k + 1];
    SameShapeSpine(f, g, path, k);
    assert path[..k] == chain[..k];
    forall i | 0 < i < k
      ensures IsOpenTag(g[chain[..k][i]].kind)
    {
      assert path[i] != path[k];
      assert IsOpenTag(f[chain[i]].kind);
    }
    ClosedOffPath(f, g, o, chain[..k]);
  }

  /** Once o is closed, the open tags with children are the ones on the path above it. */
  lemma ClosedOffPath(f: Doc, g: Doc, o: NodeId, above: seq<NodeId>)
    requires ClosedOne(f, g, o)
    requires forall m :: m in f && IsOpenTag(f[m].kind) && f[m].children != [] ==> m == o || m in above
    ensures forall m :: m in g && IsOpenTag(g[m].kind) && g[m].children != [] ==> m in above
  {
    forall m | m in g && IsOpenTag(g[m].kind) && g[m].children != []
      ensures m in above
    {
      assert m in f && m != o;
      assert g[m] == f[m];
    }
  }

  lemma CloseTagOrder(f: Doc, g: Doc, root: NodeId, next: nat, chain: seq<NodeId>, k: nat, order: seq<NodeId>, made: seq<Elem>)
    requires Flat(f, root, next, chain, k, order, made) && k >= 1 && ClosedOne(f, g, chain[k])
    requires DocValid(g)
    ensures OrderOk(g, root, order, made)
  {
    var o := chain[k];
    assert IsOpenTag(f[o].kind);
    SameShapeValid(f, g);
    forall j | 0 <= j < |order|
      ensures order[j] in g && Agrees(g[order[j]].kind, made[j])
    {
      if order[j] == o {
        AgreesClosed(f[o].kind, made[j]);
      }
    }
  }

  /** setClosing(YES) on the k-th node of the path, an open tag: it leaves the path, which ends at its parent. */
  lemma CloseTagStep(f: Doc, root: NodeId, next: nat, chain: seq<NodeId>, k: nat, order: seq<NodeId>, made: seq<Elem>)
    requires Flat(f, root, next, chain, k, order, made) && k >= 1
    ensures var o := chain[k];
      var g := f[o := f[o].(kind := SetClosed(f[o].kind))];
      Building(g, root, next, chain[..k], order, made) && g[o].parent == Some(chain[k - 1])
  {
    var o := chain[k];
    var g := f[o := f[o].(kind := SetClosed(f[o].kind))];
    assert ClosedOne(f, g, o);
    CloseTagTree(f, g, root, next, chain, k, order, made);
    CloseTagPath(f, g, root, next, chain, k, order, made);
    CloseTagOrder(f, g, root, next, chain, k, order, made);
  }

  /** closeNodes on the root after a close tag resolved to it: the path is the root alone. */
  lemma CloseRootStep(f: Doc, root: NodeId, next: nat, chain: seq<NodeId>, order: seq<NodeId>, made: seq<Elem>)
    requires Flat(f, root, next, chain, 0, order, made)
    ensures Building(CloseNodes(f, root), root, next, [root], order, made)
  {
    CloseRootTree(f, root, next, chain, order, made);
    CloseRootOrder(f, root, next, chain, order, made);
  }

  /** closeNodes keeps the tree, and the path is the root alone. */
  lemma CloseRootTree(f: Doc, root: NodeId, next: nat, chain: seq<NodeId>, order: seq<NodeId>, made: seq<Elem>)
    requires Flat(f, root, next, chain, 0, order, made)
    ensures TreeOk(CloseNodes(f, root), root, next) && PathOk(CloseNodes(f, root), root, [root])
  {
    var t := CloseNodes(f, root);
    SameShapeDocValid(f, t);
    assert [root] == chain[..1];
  }

  /** closeNodes keeps the document order, each node still agreeing with its token. */
  lemma CloseRootOrder(f: Doc, root: NodeId, next: nat, chain: seq<NodeId>, order: seq<NodeId>, made: seq<Elem>)
    requires Flat(f, root, next, chain, 0, order, made)
    ensures DocValid(CloseNodes(f, root)) && OrderOk(CloseNodes(f, root), root, order, made)
  {
    var t := CloseNodes(f, root);
    SameShapeDocValid(f, t);
    forall j | 0 <= j < |order|
      ensures order[j] in t && Agrees(t[order[j]].kind, made[j])
    {
      if IsOpenTag(f[order[j]].kind) {
        AgreesClosed(f[order[j]].kind, made[j]);
      }
    }
  }

  /** CloseAt is the flattening, then setClosing on a tag, or closeNodes on the root. */
  lemma CloseAtIs(s: Doc, o: NodeId)
    requires Valid(s) && o in s && (s[o].kind.RootE? ==> s[o].kind == RootE(RootData()))
    ensures Valid(Flattened(s, o, IsOpenTag))
    ensures var f := Flattened(s, o, IsOpenTag);
      CloseAt(s, o) == if s[o].kind.RootE? then CloseNodes(f, o) else f[o := f[o].(kind := SetClosed(f[o].kind))]
  {
    FlattenValid(s, o, IsOpenTag);
    FlattenedShape(s, o, IsOpenTag);
    var f := Flattened(s, o, IsOpenTag);
    if s[o].kind.RootE? {
      assert f[o := f[o].(kind := SetClosed(f[o].kind))] == f;
    }
  }

  /** A close tag resolved to the k-th node of the path keeps the invariant; the path ends at that node's parent. */
  lemma CloseStep(s: Doc, root: NodeId, next: nat, chain: seq<NodeId>, k: nat, order: seq<NodeId>, made: seq<Elem>)
    requires Building(s, root, next, chain, order, made) && k < |chain|
    ensures var t := CloseAt(s, chain[k]);
      var k1 := if k == 0 then 1 else k;
      Building(t, root, next, chain[..k1], order, made) && t[chain[k]].parent == Some(chain[k1 - 1])
  {
    var o := chain[k];
    FlatStep(s, root, next, chain, k, order, made);
    var f := Flattened(s, o, IsOpenTag);
    assert k > 0 ==> IsOpenTag(s[o].kind);
    CloseAtIs(s, o);
    if k == 0 {
      CloseRootStep(f, root, next, chain, order, made);
      assert [root] == chain[..1];
    } else {
      CloseTagStep(f, root, next, chain, k, order, made);
    }
  }

  // --------------------------------------------------- resolving a close tag

  /** The ancestors parent() walks through from a node of the path are the path's nodes above it, below the root. */
  lemma {:induction false} SpineAncestors(s: Doc, root: NodeId, next: nat, chain: seq<NodeId>, i: nat)
    requires TreeOk(s, root, next) && PathOk(s, root, chain) && i < |chain|
    ensures forall a :: a in Ancestors(s, chain[i]) ==> a in chain[1..i]
    decreases i
  {
    assert IsTop(s, root);
    SpineLinks(s, chain);
    if i > 0 {
      var p := chain[i - 1];
      if !s[p].kind.RootE? {
        SpineAncestors(s, root, next, chain, i - 1);
        assert Ancestors(s, chain[i]) == [p] + Ancestors(s, p);
        assert i - 1 > 0;
        assert chain[1..i] == chain[1..i - 1] + [p];
      }
    }
  }

  /** A close tag resolves to a node of the open path. */
  lemma OpeningOnPath(s: Doc, root: NodeId, next: nat, chain: seq<NodeId>, name: string)
    requires TreeOk(s, root, next) && PathOk(s, root, chain)
    ensures HasList(s[chain[|chain| - 1]].kind)
    ensures Opening(s, root, chain[|chain| - 1], name) in chain
  {
    var last := |chain| - 1;
    var current := chain[last];
    var k: nat;
    CurrentHasList(s, root, next, chain);
    assert IsTop(s, root);
    SpineLinks(s, chain);
    if s[current].kind.data.tag == name {
      k := last;
    } else if !Truthy(name) {
      k := if last == 0 then 0 else last - 1;
    } else {
      var r := ParentNamed(s, current, name);
      if r.Some? {
        SpineAncestors(s, root, next, chain, last);
        var j :| 0 <= j < |chain[1..last]| && chain[1..last][j] == r.value;
        k := j + 1;
      } else {
        k := 0;
      }
    }
    assert chain[k] == Opening(s, root, current, name);
  }

  // ------------------------------------------------------------- the end

  /** What buildTree returns: the tree under its root, in token order, with no open element holding children. */
  ghost predicate Built(s: Doc, root: NodeId, made: seq<Elem>) {
    && DocValid(s) && root in s && s[root].kind == RootE(RootData()) && s[root].parent == Some(root)
    && (forall m :: m in s && IsOpenTag(s[m].kind) ==> s[m].children == [])
    && |Preorder(s, root)| == |made| + 1 && Preorder(s, root)[0] == root
    && (forall m :: m in s ==> m in Preorder(s, root))
    && (forall j :: 0 <= j < |made| ==> Agrees(s[Preorder(s, root)[j + 1]].kind, made[j]))
  }

  /** The final closeNodes(root) leaves no open element with children. */
  lemma Finish(s: Doc, root: NodeId, next: nat, chain: seq<NodeId>, order: seq<NodeId>, made: seq<Elem>)
    requires Building(s, root, next, chain, order, made)
    ensures Built(CloseNodes(s, root), root, made)
  {
    var t := CloseNodes(s, root);
    SameShapeDocValid(s, t);
    FinishChildless(s, root, next, chain, order, made);
    FinishAgrees(s, root, next, chain, order, made);
  }

  lemma FinishChildless(s: Doc, root: NodeId, next: nat, chain: seq<NodeId>, order: seq<NodeId>, made: seq<Elem>)
    requires Building(s, root, next, chain, order, made)
    ensures var t := CloseNodes(s, root);
      forall m :: m in t && IsOpenTag(t[m].kind) ==> t[m].children == []
  {
    var t := CloseNodes(s, root);
    SameShapeDocValid(s, t);
    forall m | m in t && IsOpenTag(t[m].kind)
      ensures t[m].children == []
    {
      if s[m].children != [] {
        var j :| 0 <= j < |chain| && chain[j] == m;
        SpineFlat(s, root, chain, 0, j);
      }
    }
  }

  lemma FinishAgrees(s: Doc, root: NodeId, next: nat, chain: seq<NodeId>, order: seq<NodeId>, made: seq<Elem>)
    requires Building(s, root, next, chain, order, made)
    ensures var t := CloseNodes(s, root);
      Valid(t) && root in t && |Preorder(t, root)| == |made| + 1
      && forall j :: 0 <= j < |made| ==> Agrees(t[Preorder(t, root)[j + 1]].kind, made[j])
  {
    var t := CloseNodes(s, root);
    SameShapeDocValid(s, t);
    var pre := Preorder(t, root);
    assert pre == [root] + order;
    forall j | 0 <= j < |made|
      ensures Agrees(t[pre[j + 1]].kind, made[j])
    {
      assert pre[j + 1] == order[j];
      if IsOpenTag(s[order[j]].kind) {
        AgreesClosed(s[order[j]].kind, made[j]);
      }
    }
  }

  lemma MadeStep(tokens: seq<Token>, i: nat)
    requires i < |tokens|
    ensures Made(tokens[..i + 1]) == Made(tokens[..i]) + (if tokens[i].kind == TagClose then [] else [ElemOf(tokens[i])])
  {
    assert tokens[..i + 1][..i] == tokens[..i];
  }

  // ------------------------------------------------------------ the loop

  /** The loop's variables: the tree, the current element and the next fresh id. */
  datatype Builder = Builder(doc: Doc, current: NodeId, next: nat)

  /** Before the loop: a fresh RootNode alone, and current. */
  function Start(root: NodeId): (b: Builder)
    ensures b.doc.Keys == {root} && b.current == root && b.next == root + 1
    ensures b.doc[root].kind == RootE(RootData()) && b.doc[root].parent == Some(root)
  {
    Builder(map[root := Rec(RootE(RootData()), Some(root), [])], root, root + 1)
  }

  /** What every step of the loop relies on: a valid tree holding the root and current, next fresh. */
  ghost predicate Ready(b: Builder, root: NodeId) {
    && DocValid(b.doc) && root in b.doc
    && b.current in b.doc && HasList(b.doc[b.current].kind)
    && b.next !in b.doc
  }

  /**
   * The TEXT, COMMENT, TAG_SELF and TAG_OPEN cases: the new node becomes
   * the last child of current and nothing else changes; it becomes
   * current exactly when it is an opening tag.
   */
  function AddToken(b: Builder, root: NodeId, e: Elem): (r: Builder)
    requires Ready(b, root)
    ensures Appended(b.doc, r.doc, b.current, b.next, e) && DocValid(r.doc)
    ensures r.next == b.next + 1
    ensures r.current == (if IsOpenTag(e) then b.next else b.current)
  {
    AddNewShape(b.doc, b.current, b.next, e);
    Builder(AddNew(b.doc, b.current, b.next, e), if IsOpenTag(e) then b.next else b.current, b.next + 1)
  }

  /**
   * The TAG_CLOSE case: the close tag resolves to an element, which ends
   * up closed; current becomes that element's parent.
   */
  function CloseTag(b: Builder, root: NodeId, name: string): (r: Builder)
    requires Ready(b, root)
    ensures var o := Opening(b.doc, root, b.current, name);
      o in r.doc && !IsOpenTag(r.doc[o].kind) && (r.doc[o].parent.Some? ==> r.doc[o].parent == Some(r.current))
    ensures r.doc.Keys == b.doc.Keys && r.next == b.next
  {
    var o := Opening(b.doc, root, b.current, name);
    var t := CloseAt(b.doc, o);
    Builder(t, match t[o].parent case Some(p) => p case None => root, b.next)
  }

  /** One token of the loop: a node for every token but a close tag. */
  function Step(b: Builder, root: NodeId, t: Token): (r: Builder)
    requires Ready(b, root)
    ensures t.kind == TagClose ==> r.doc.Keys == b.doc.Keys && r.next == b.next
    ensures t.kind != TagClose ==> r.doc.Keys == b.doc.Keys + {b.next} && r.next == b.next + 1
    ensures t.kind != TagClose ==> r.doc[b.next].kind == ElemOf(t) && r.doc[b.next].parent == Some(b.current)
    ensures t.kind != TagClose ==> r.doc[b.current].children == b.doc[b.current].children + [b.next]
    ensures t.kind != TagClose ==> r.current == if t.kind == TagOpen then b.next else b.current
    ensures t.kind == TagClose ==> var o := Opening(b.doc, root, b.current, t.tag);
      o in r.doc && !IsOpenTag(r.doc[o].kind) && (r.doc[o].parent.Some? ==> r.doc[o].parent == Some(r.current))
  {
    if t.kind == TagClose then CloseTag(b, root, t.tag) else AddToken(b, root, ElemOf(t))
  }

  /** The loop's variables together with the open path and the document order they stand for. */
  datatype Trace = Trace(b: Builder, chain: seq<NodeId>, order: seq<NodeId>)

  /** The invariant holds and the path ends at current. */
  ghost predicate Tracks(p: Trace, root: NodeId, made: seq<Elem>) {
    Building(p.b.doc, root, p.b.next, p.chain, p.order, made) && p.b.current == p.chain[|p.chain| - 1]
  }

  lemma TracksReady(p: Trace, root: NodeId, made: seq<Elem>)
    requires Tracks(p, root, made)
    ensures Ready(p.b, root)
  {
    CurrentHasList(p.b.doc, root, p.b.next, p.chain);
  }

  /**
   * A close tag pops the open path: it resolves to the k-th element of the
   * path, the tree becomes CloseAt of that element, the path ends at its
   * parent (or is the root alone when it resolved to the root), and
   * current is that parent.
   */
  lemma CloseTagPops(p: Trace, root: NodeId, made: seq<Elem>, name: string)
    requires Tracks(p, root, made)
    ensures Ready(p.b, root)
    ensures var o := Opening(p.b.doc, root, p.b.current, name);
      o in p.chain &&
      var k := IndexIn(p.chain, o);
      var k1 := if k == 0 then 1 else k;
      var r := CloseTag(p.b, root, name);
      && p.chain[k] == o
      && r.doc == CloseAt(p.b.doc, o)
      && r.current == p.chain[k1 - 1] && r.doc[o].parent == Some(r.current)
      && Tracks(Trace(r, p.chain[..k1], p.order), root, made)
  {
    TracksReady(p, root, made);
    OpeningOnPath(p.b.doc, root, p.b.next, p.chain, name);
    var o := Opening(p.b.doc, root, p.b.current, name);
    var k := IndexIn(p.chain, o);
    ClosePath(p.b, root, p.chain, k, p.order, made, name);
  }

  /** A position of a node on the path. */
  ghost function IndexIn(chain: seq<NodeId>, o: NodeId): (k: nat)
    requires o in chain
    ensures k < |chain| && chain[k] == o
  {
    var k :| 0 <= k < |chain| && chain[k] == o; k
  }

  /** The close-tag step on the plain invariant, for a close tag that resolves to the k-th element of the path. */
  lemma ClosePath(b: Builder, root: NodeId, chain: seq<NodeId>, k: nat, order: seq<NodeId>, made: seq<Elem>, name: string)
    requires Building(b.doc, root, b.next, chain, order, made) && b.current == chain[|chain| - 1]
    requires Ready(b, root) && k < |chain| && chain[k] == Opening(b.doc, root, b.current, name)
    ensures var k1 := if k == 0 then 1 else k;
      var r := CloseTag(b, root, name);
      && r.doc == CloseAt(b.doc, chain[k])
      && r.current == chain[k1 - 1] && r.doc[chain[k]].parent == Some(r.current)
      && Building(r.doc, root, r.next, chain[..k1], order, made) && r.current == chain[..k1][k1 - 1]
  {
    CloseStep(b.doc, root, b.next, chain, k, order, made);
    var k1 := if k == 0 then 1 else k;
    assert chain[..k1][k1 - 1] == chain[k1 - 1];
  }

  /**
   * Any other token opens a node: it is appended under current, last in
   * document order, and extends the path exactly when it is an opening tag.
   */
  lemma AddTokenPushes(p: Trace, root: NodeId, made: seq<Elem>, e: Elem)
    requires Tracks(p, root, made)
    ensures Ready(p.b, root)
    ensures var r := AddToken(p.b, root, e);
      Tracks(Trace(r, if IsOpenTag(e) then p.chain + [p.b.next] else p.chain, p.order + [p.b.next]), root, made + [e])
  {
    TracksReady(p, root, made);
    AppendStep(p.b.doc, root, p.b.next, p.chain, p.order, made, e);
  }

  /** One token on the trace. */
  ghost function StepTrace(p: Trace, root: NodeId, made: seq<Elem>, t: Token): (r: Trace)
    requires Tracks(p, root, made)
    ensures Ready(p.b, root) && r.b == Step(p.b, root, t)
    ensures if t.kind == TagClose then Tracks(r, root, made) else Tracks(r, root, made + [ElemOf(t)])
  {
    TracksReady(p, root, made);
    if t.kind == TagClose then CloseTrace(p, root, made, t.tag)
    else AddTrace(p, root, made, ElemOf(t))
  }

  ghost function CloseTrace(p: Trace, root: NodeId, made: seq<Elem>, name: string): (r: Trace)
    requires Tracks(p, root, made)
    ensures Ready(p.b, root) && r.b == CloseTag(p.b, root, name) && Tracks(r, root, made)
  {
    CloseTagPops(p, root, made, name);
    var k := IndexIn(p.chain, Opening(p.b.doc, root, p.b.current, name));
    Trace(CloseTag(p.b, root, name), p.chain[..if k == 0 then 1 else k], p.order)
  }

  ghost function AddTrace(p: Trace, root: NodeId, made: seq<Elem>, e: Elem): (r: Trace)
    requires Tracks(p, root, made)
    ensures Ready(p.b, root) && r.b == AddToken(p.b, root, e) && Tracks(r, root, made + [e])
  {
    AddTokenPushes(p, root, made, e);
    Trace(AddToken(p.b, root, e), if IsOpenTag(e) then p.chain + [p.b.next] else p.chain, p.order + [p.b.next])
  }

  /** The loop over a prefix of the tokens, as a fold of Step from Start(0). */
  ghost function Traced(tokens: seq<Token>): (r: Trace)
    ensures Tracks(r, 0, Made(tokens))
    decreases |tokens|
  {
    if |tokens| == 0 then
      InitialBuilding(0);
      Trace(Start(0), [0], [])
    else
      var init := tokens[..|tokens| - 1];
      var r := StepTrace(Traced(init), 0, Made(init), tokens[|tokens| - 1]);
      assert Made(init) + [] == Made(init);
      r
  }

  /** buildTree's result: the fold, then closeNodes on the root. */
  ghost function Parse(tokens: seq<Token>): (s: Doc)
    ensures Built(s, 0, Made(tokens))
  {
    var p := Traced(tokens);
    Finish(p.b.doc, 0, p.b.next, p.chain, p.order, Made(tokens));
    CloseNodes(p.b.doc, 0)
  }

  /** buildTree over the tokens, in order. */
  method BuildTree(tokens: seq<Token>) returns (s: Doc, root: NodeId)
    ensures root == 0 && s == Parse(tokens)
    ensures Built(s, root, Made(tokens))
  {
    root := 0;
    var b := Start(root);
    var i := 0;
    while i < |tokens|
      invariant 0 <= i <= |tokens|
      invariant b == Traced(tokens[..i]).b
    {
      TracedStep(tokens, i);
      b := Step(b, root, tokens[i]);
      i := i + 1;
    }
    assert tokens[..i] == tokens;
    s := CloseNodes(b.doc, root);
    ParseBuilt(tokens);
  }

  lemma ParseBuilt(tokens: seq<Token>)
    ensures Parse(tokens) == CloseNodes(Traced(tokens).b.doc, 0)
    ensures Built(Parse(tokens), 0, Made(tokens))
  {
  }

  /** The close step leaves o's parent, and the parent of every child of o, as they were. */
  lemma CloseAtKeepsParent(s: Doc, o: NodeId, m: NodeId)
    requires Valid(s) && o in s && m in s && (s[m].parent == Some(o) || m == o)
    ensures CloseAt(s, o)[m].parent == s[m].parent
  {
    FlattenValid(s, o, IsOpenTag);
    FlattenedKeepsParent(s, o, m, IsOpenTag);
    var f := Flattened(s, o, IsOpenTag);
    var g := f[o := f[o].(kind := SetClosed(f[o].kind))];
    assert g[m].parent == s[m].parent;
    assert SameShape(f, g);
    SameShapeValid(f, g);
  }

  /**
   * The loop over the tokens of `<d>x</d>` nests them: the text is the
   * element's only child and the element the root's.
   */
  lemma NestedText(d: string, x: string)
    ensures Ready(Start(0), 0)
    ensures var b1 := Step(Start(0), 0, Token(TagOpen, "", d, ""));
      Ready(b1, 0) && var b2 := Step(b1, 0, Token(Text, x, "", ""));
      Ready(b2, 0) && var b3 := Step(b2, 0, Token(TagClose, "", d, ""));
      && 0 in b3.doc && 1 in b3.doc && 2 in b3.doc
      && b3.doc[1].parent == Some(0) && b3.doc[2].parent == Some(1)
      && b3.doc[0].children == [1] && b3.doc[1].children == [2]
  {
    NestedAdd(d, x);
    var b1 := Step(Start(0), 0, Token(TagOpen, "", d, ""));
    var b2 := Step(b1, 0, Token(Text, x, "", ""));
    NestedClose(b2, d, x);
  }

  /** The builder after `<d>x`: the element d under the root is current and holds the text x alone. */
  ghost predicate OpenHoldsText(b: Builder, d: string, x: string) {
    && Ready(b, 0) && b.doc.Keys == {0, 1, 2} && b.current == 1
    && b.doc[0].children == [1] && b.doc[1].children == [2] && b.doc[1].parent == Some(0)
    && b.doc[2] == Rec(TextE(x), Some(1), []) && b.doc[1].kind.TagE? && b.doc[1].kind.data.tag == d
  }

  /** `<d>x`: the element under the root is current and holds the text alone. */
  lemma NestedAdd(d: string, x: string)
    ensures Ready(Start(0), 0)
    ensures var b1 := Step(Start(0), 0, Token(TagOpen, "", d, ""));
      Ready(b1, 0) && OpenHoldsText(Step(b1, 0, Token(Text, x, "", "")), d, x)
  {
    NestedOpen(d);
    NestedTextAdded(Step(Start(0), 0, Token(TagOpen, "", d, "")), d, x);
  }

  /** The builder after `<d>`: the element d, alone under the root, is current. */
  ghost predicate OpenAlone(b: Builder, d: string) {
    && Ready(b, 0) && b.doc.Keys == {0, 1} && b.current == 1 && b.next == 2
    && b.doc[0].children == [1] && b.doc[1].parent == Some(0) && b.doc[1].children == []
    && b.doc[1].kind.TagE? && b.doc[1].kind.data.tag == d
  }

  lemma NestedOpen(d: string)
    ensures Ready(Start(0), 0) && OpenAlone(Step(Start(0), 0, Token(TagOpen, "", d, "")), d)
  {
    InitialBuilding(0);
    var b1 := Step(Start(0), 0, Token(TagOpen, "", d, ""));
    assert b1 == AddToken(Start(0), 0, ElemOf(Token(TagOpen, "", d, "")));
  }

  lemma NestedTextAdded(b: Builder, d: string, x: string)
    requires OpenAlone(b, d)
    ensures OpenHoldsText(Step(b, 0, Token(Text, x, "", "")), d, x)
  {
    assert Step(b, 0, Token(Text, x, "", "")) == AddToken(b, 0, TextE(x));
  }

  /** `</d>` with the element of `<d>x` current closes it in place. */
  lemma NestedClose(b: Builder, d: string, x: string)
    requires OpenHoldsText(b, d, x)
    ensures var r := Step(b, 0, Token(TagClose, "", d, ""));
      && 0 in r.doc && 1 in r.doc && 2 in r.doc
      && r.doc[1].parent == Some(0) && r.doc[2].parent == Some(1)
      && r.doc[0].children == [1] && r.doc[1].children == [2]
  {
    assert Opening(b.doc, 0, 1, d) == 1;
    CloseAtKeepsParent(b.doc, 1, 1);
    CloseAtKeepsParent(b.doc, 1, 2);
    NestedTextLists(b.doc, x);
  }

  /** Closing the element of `<d>x</d>` keeps the root listing it and it listing the text. */
  lemma NestedTextLists(s: Doc, x: string)
    requires Valid(s) && s.Keys == {0, 1, 2} && s[0].children == [1] && s[1].children == [2]
    requires s[2] == Rec(TextE(x), Some(1), []) && s[1].parent == Some(0) && !s[1].kind.RootE?
    ensures CloseAt(s, 1)[0].children == [1] && CloseAt(s, 1)[1].children == [2]
  {
    FlattenValid(s, 1, IsOpenTag);
    FlattenedShape(s, 1, IsOpenTag);
    assert FlatBelow(s, 1, [2], IsOpenTag) == [2] + [] + FlatBelow(s, 1, [], IsOpenTag);
  }

  /** One more token is one more Step of the fold. */
  lemma TracedStep(tokens: seq<Token>, i: nat)
    requires i < |tokens|
    ensures Ready(Traced(tokens[..i]).b, 0)
    ensures Traced(tokens[..i + 1]).b == Step(Traced(tokens[..i]).b, 0, tokens[i])
  {
    assert tokens[..i + 1][..i] == tokens[..i];
    TracksReady(Traced(tokens[..i]), 0, Made(tokens[..i]));
  }

  // ---------------------------------------------------- what the tree holds

  lemma {:induction false} OwnTextsAgree(s: Doc, ns: seq<NodeId>, es: seq<Elem>)
    requires |ns| == |es| && forall j :: 0 <= j < |ns| ==> ns[j] in s && Agrees(s[ns[j]].kind, es[j])
    ensures forall m :: m in ns ==> m in s
    ensures OwnTexts(s, ns) == ElemTexts(es)
    decreases |ns|
  {
    if |ns| > 0 {
      assert Agrees(s[ns[0]].kind, es[0]);
      OwnTextsAgree(s, ns[1..], es[1..]);
    }
  }

  /** getText of the built root is the texts of the text and comment tokens, in order. */
  lemma BuiltText(s: Doc, root: NodeId, tokens: seq<Token>)
    requires Built(s, root, Made(tokens))
    ensures Dom.Text(s, root) == TokenTexts(tokens)
  {
    var pre := Preorder(s, root);
    var made := Made(tokens);
    TextIsLeafTexts(s, root);
    OwnTextsAgree(s, pre[1..], made);
    assert pre == [root] + pre[1..];
    OwnTextsAppend(s, [root], pre[1..]);
    assert OwnTexts(s, [root]) == OwnText(s[root].kind) + OwnTexts(s, []);
    MadeTexts(tokens);
  }

  /** The tokens make only tags, texts and comments. */
  lemma {:induction false} MadeKinds(tokens: seq<Token>)
    ensures forall e :: e in Made(tokens) ==> e.TagE? || e.TextE? || e.CommentE?
    decreases |tokens|
  {
    if |tokens| > 0 {
      MadeKinds(tokens[..|tokens| - 1]);
    }
  }

  /**
   * The built root is the only root, and no node is a CollectionNode: every
   * other node is a tag, a text or a comment.
   */
  lemma BuiltKinds(s: Doc, root: NodeId, tokens: seq<Token>)
    requires Built(s, root, Made(tokens))
    ensures forall m :: m in s && m != root ==> s[m].kind.TagE? || s[m].kind.TextE? || s[m].kind.CommentE?
    ensures forall m :: m in s ==> !s[m].kind.CollectionE?
  {
    var pre := Preorder(s, root);
    var made := Made(tokens);
    MadeKinds(tokens);
    forall m | m in s && m != root
      ensures s[m].kind.TagE? || s[m].kind.TextE? || s[m].kind.CommentE?
    {
      var j :| 0 <= j < |pre| && pre[j] == m;
      assert j > 0;
      assert made[j - 1] in made;
      assert Agrees(s[pre[j]].kind, made[j - 1]);
    }
  }

  /**
   * On every document buildTree returns, find as written keeps only the
   * listed nodes that match, at any depth, while the corrected find
   * searches their whole subtrees.
   */
  lemma BuiltFind(s: Doc, root: NodeId, tokens: seq<Token>, ns: seq<NodeId>, test: Elem -> bool, depth: int)
    requires Built(s, root, Made(tokens)) && forall n :: n in ns ==> n in s
    ensures FindList(s, ns, test, IsCollectionNode, depth) == Keep(s, ns, test)
    ensures depth <= 0 ==> FindList(s, ns, test, IsContainer, depth) == Keep(s, Subtrees(s, ns), test)
  {
    BuiltKinds(s, root, tokens);
    FindAsWrittenShallow(s, ns, test, depth);
    if depth <= 0 {
      FindListAll(s, ns, test, depth);
    }
  }
}
