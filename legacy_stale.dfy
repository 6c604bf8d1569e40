/**
 * buildTree of the older generation exactly as written. The close step
 * hands what getOpenChildren collected to Node.addChildren, whose
 * NodeCollection.each(-1) points every node of the collected subtrees at
 * the closing element, not only the collected nodes. A closed element
 * collected there keeps listing its children while they now point past it,
 * so the tree is not linked as LegacyBuild's corrected builder assumes.
 *
 * The walks here work on the lists alone (getOpenChildren, each,
 * closeNodes) or on the parent links alone (findParent), on any store
 * whose lists and links stay inside it; a set of nodes not yet visited
 * bounds them. The proof shows that the builder as written keeps the same
 * kinds and lists as the corrected one step by step, and that its parent
 * links differ only below closed elements: along the open path they agree,
 * so every close tag resolves to the same element.
 */
module LegacyStale {
  import opened Prelude
  import opened Arena
  import opened Edit
  import opened Spine
  import opened Elements
  import opened Dom
  import opened Tokens
  import opened Flatten
  import opened Query
  import opened Build
  import opened LegacyBuild
  import LegacyNode

  // ----------------------------------------------------------- the stores

  /** Every listed child is a node of the store. */
  ghost predicate ListsIn(s: Doc) {
    forall m, c :: m in s && c in s[m].children ==> c in s
  }

  /** The same nodes with the same kinds and lists; parent links may differ. */
  ghost predicate SameLists(a: Doc, c: Doc) {
    && a.Keys == c.Keys
    && forall m :: m in a ==> a[m].kind == c[m].kind && a[m].children == c[m].children
  }

  /** a and w hold the listed nodes with the same kinds and lists. */
  ghost predicate Agree(a: Doc, w: Doc, ms: seq<NodeId>) {
    forall m :: m in ms ==> m in a && m in w && a[m].kind == w[m].kind && a[m].children == w[m].children
  }

  /** Only the root and the tags hold children. */
  ghost predicate Bare(w: Doc) {
    forall m :: m in w && !HasList(w[m].kind) ==> w[m].children == []
  }

  lemma ListsOf(a: Doc, c: Doc)
    requires SameLists(a, c) && Valid(c)
    ensures ListsIn(a)
  {
    forall m, x | m in a && x in a[m].children
      ensures x in a
    {
      var i :| 0 <= i < |c[m].children| && c[m].children[i] == x;
      assert ChildLink(c, m, c[m].children[i]);
    }
  }

  /** A node is not below itself. */
  lemma NotBelowSelf(w: Doc, n: NodeId)
    requires Valid(w) && n in w
    ensures n !in PreorderBelow(w, n, w[n].children)
  {
    PreorderDistinct(w, n);
    var below := PreorderBelow(w, n, w[n].children);
    var p := Preorder(w, n);
    assert p == [n] + below;
    forall j | 0 <= j < |below|
      ensures below[j] != n
    {
      assert below[j] == p[j + 1] && n == p[0];
    }
  }

  // ------------------------------------------------------ getOpenChildren

  /**
   * getOpenChildren on the lists: each listed node, followed by what it
   * collects itself when it is an open tag.
   */
  function Collect(s: Doc, cs: seq<NodeId>, unseen: set<NodeId>): (r: seq<NodeId>)
    requires ListsIn(s) && forall c :: c in cs ==> c in s
    ensures forall m :: m in r ==> m in s
    decreases unseen, |cs|
  {
    if |cs| == 0 then []
    else
      var c := cs[0];
      [c] + (if IsOpenTag(s[c].kind) && c in unseen then Collect(s, s[c].children, unseen - {c}) else [])
        + Collect(s, cs[1..], unseen)
  }

  /** On lists that form a tree, getOpenChildren collects what the corrected builder flattens. */
  lemma {:induction false} CollectIsFlat(a: Doc, w: Doc, p: NodeId, cs: seq<NodeId>, unseen: set<NodeId>)
    requires ListsIn(a) && Valid(w) && p in w && ChildrenOf(w, p, cs)
    requires Agree(a, w, PreorderBelow(w, p, cs))
    requires forall m :: m in PreorderBelow(w, p, cs) ==> m in unseen
    ensures forall c :: c in cs ==> c in a
    ensures Collect(a, cs, unseen) == FlatBelow(w, p, cs, IsOpenTag)
    decreases Bound(w) - Depth(w, p), |cs|
  {
    if |cs| > 0 {
      var x := cs[0];
      ChildDepth(w, p, x);
      var below := PreorderBelow(w, x, w[x].children);
      assert PreorderBelow(w, p, cs) == [x] + below + PreorderBelow(w, p, cs[1..]);
      NotBelowSelf(w, x);
      CollectIsFlat(a, w, x, w[x].children, unseen - {x});
      CollectIsFlat(a, w, p, cs[1..], unseen);
    }
  }

  /** getOpenChildren(o) on lists that agree with a linked document. */
  lemma CollectAt(a: Doc, c: Doc, o: NodeId)
    requires SameLists(a, c) && Valid(c) && o in c
    ensures ListsIn(a) && o in a
    ensures Collect(a, a[o].children, a.Keys) == FlatBelow(c, o, c[o].children, IsOpenTag)
  {
    ListsOf(a, c);
    var cs := c[o].children;
    assert ChildrenOf(c, o, cs) by {
      forall x | x in cs
        ensures x in c
      {
        var i :| 0 <= i < |cs| && cs[i] == x;
        assert ChildLink(c, o, cs[i]);
      }
    }
    CollectIsFlat(a, c, o, cs, a.Keys);
  }

  // ----------------------------------------------------------------- each

  /**
   * NodeCollection.each as written, at node n with d the level it has
   * already decremented: n is visited, and when d is not 0 and n holds
   * children, its children with d - 2.
   */
  function VisitAt(s: Doc, n: NodeId, d: int, unseen: set<NodeId>): (r: seq<NodeId>)
    requires ListsIn(s) && n in s
    ensures forall m :: m in r ==> m in s
    decreases unseen, 0
  {
    [n] + (if d != 0 && HasList(s[n].kind) && n in unseen then VisitBelow(s, s[n].children, d - 2, unseen - {n}) else [])
  }

  /** each over a list of nodes. */
  function VisitBelow(s: Doc, cs: seq<NodeId>, d: int, unseen: set<NodeId>): (r: seq<NodeId>)
    requires ListsIn(s) && forall c :: c in cs ==> c in s
    ensures forall m :: m in r ==> m in s
    decreases unseen, |cs| + 1
  {
    if |cs| == 0 then [] else VisitAt(s, cs[0], d, unseen) + VisitBelow(s, cs[1..], d, unseen)
  }

  /** On lists that form a tree, each with a negative level visits the whole subtree in document order. */
  lemma {:induction false} VisitAtAll(a: Doc, w: Doc, n: NodeId, d: int, unseen: set<NodeId>)
    requires ListsIn(a) && Valid(w) && Bare(w) && n in w && d < 0
    requires Agree(a, w, Preorder(w, n)) && forall m :: m in Preorder(w, n) ==> m in unseen
    ensures n in a && VisitAt(a, n, d, unseen) == Preorder(w, n)
    decreases Bound(w) - Depth(w, n), 1, 0
  {
    assert n in Preorder(w, n);
    NotBelowSelf(w, n);
    VisitBelowAll(a, w, n, w[n].children, d - 2, unseen - {n});
  }

  lemma {:induction false} VisitBelowAll(a: Doc, w: Doc, p: NodeId, cs: seq<NodeId>, d: int, unseen: set<NodeId>)
    requires ListsIn(a) && Valid(w) && Bare(w) && p in w && ChildrenOf(w, p, cs) && d < 0
    requires Agree(a, w, PreorderBelow(w, p, cs)) && forall m :: m in PreorderBelow(w, p, cs) ==> m in unseen
    ensures (forall c :: c in cs ==> c in a) && VisitBelow(a, cs, d, unseen) == PreorderBelow(w, p, cs)
    decreases Bound(w) - Depth(w, p), 0, |cs|
  {
    if |cs| > 0 {
      ChildDepth(w, p, cs[0]);
      assert PreorderBelow(w, p, cs) == Preorder(w, cs[0]) + PreorderBelow(w, p, cs[1..]);
      VisitAtAll(a, w, cs[0], d, unseen);
      VisitBelowAll(a, w, p, cs[1..], d, unseen);
    }
  }

  /** With a negative level, each visits every node of the listed subtrees, in document order. */
  lemma {:induction false} VisitAll(a: Doc, w: Doc, ns: seq<NodeId>, d: int, unseen: set<NodeId>)
    requires ListsIn(a) && Valid(w) && Bare(w) && (forall n :: n in ns ==> n in w) && d < 0
    requires Agree(a, w, Subtrees(w, ns)) && forall m :: m in Subtrees(w, ns) ==> m in unseen
    ensures (forall n :: n in ns ==> n in a) && VisitBelow(a, ns, d, unseen) == Subtrees(w, ns)
  {
    if |ns| > 0 {
      assert Subtrees(w, ns) == Preorder(w, ns[0]) + Subtrees(w, ns[1..]);
      VisitAtAll(a, w, ns[0], d, unseen);
      VisitAll(a, w, ns[1..], d, unseen);
    }
  }

  // ------------------------------------------------------------ addChildren

  /**
   * Node.addChildren as written: each(-1) points every node it visits at
   * p, and the listed nodes go at the end of p's list; a text or comment
   * has no list.
   */
  function AddChildrenStale(s: Doc, p: NodeId, ns: seq<NodeId>): (r: Result<Doc>)
    requires ListsIn(s) && p in s && forall n :: n in ns ==> n in s
    ensures r.Err? <==> !HasList(s[p].kind)
    ensures r.Ok? ==> r.value.Keys == s.Keys && ListsIn(r.value)
  {
    if !HasList(s[p].kind) then Err(LegacyNode.NoChildren)
    else
      var u := SetParents(s, VisitBelow(s, ns, -2, s.Keys), Some(p));
      Ok(SetChildren(u, p, u[p].children + ns))
  }

  /** On a linked older document the walk on the lists is the arena's addChildren as written. */
  lemma AddChildrenStaleIs(s: Doc, p: NodeId, ns: seq<NodeId>)
    requires LegacyNode.LegacyDoc(s) && p in s && forall n :: n in ns ==> n in s
    ensures ListsIn(s)
    ensures AddChildrenStale(s, p, ns) == LegacyNode.AddChildrenAsWritten(s, p, ns)
  {
    ListsOf(s, s);
    if HasList(s[p].kind) {
      VisitAll(s, s, ns, -2, s.Keys);
      LegacyNode.EachAsWrittenAll(s, ns, -1);
    }
  }

  // ------------------------------------------------------------ findParent

  /**
   * findParent on the parent links: null when n has no parent or the level
   * is 0, the parent if it passes, else the parent's findParent with one
   * level less.
   */
  function FindUp(s: Doc, n: NodeId, test: Elem -> bool, levels: int, unseen: set<NodeId>): (r: Option<NodeId>)
    requires ParentsIn(s) && n in s
    ensures r.Some? ==> r.value in s && test(s[r.value].kind)
    decreases unseen
  {
    if s[n].parent.None? || levels == 0 then None
    else
      var p := s[n].parent.value;
      if test(s[p].kind) then Some(p)
      else if p in unseen then FindUp(s, p, test, levels - 1, unseen - {p})
      else None
  }

  /**
   * From the i-th node of a path whose links agree with a linked document
   * and whose first node has no parent, findParent finds what it finds in
   * the linked document.
   */
  lemma {:induction false} FindUpOnPath(a: Doc, c: Doc, chain: seq<NodeId>, i: nat, test: Elem -> bool, levels: int, unseen: set<NodeId>)
    requires Valid(c) && IsSpine(c, chain) && IsTop(c, chain[0]) && i < |chain|
    requires ParentsIn(a) && SameLists(a, c) && a[chain[0]].parent.None?
    requires forall j :: 0 < j < |chain| ==> a[chain[j]].parent == c[chain[j]].parent
    requires forall j :: 0 <= j < i ==> chain[j] in unseen
    ensures FindUp(a, chain[i], test, levels, unseen) == LegacyNode.FindParent(c, chain[i], test, levels)
    decreases i
  {
    if i > 0 && levels != 0 {
      SpineLinks(c, chain);
      var n := chain[i];
      var p := chain[i - 1];
      assert c[n].parent == Some(p) && p != n;
      assert a[n].parent == Some(p) && a[p].kind == c[p].kind;
      FindParentStep(c, n, test, levels);
      if !test(c[p].kind) {
        assert p in unseen;
        forall j | 0 <= j < i - 1
          ensures chain[j] in unseen - {p}
        {
          assert chain[j] != chain[i - 1];
        }
        FindUpOnPath(a, c, chain, i - 1, test, levels - 1, unseen - {p});
      }
    }
  }

  /** The element a close tag resolves to, as the loop finds it; null is the fatal error. */
  function AwOpening(s: Doc, current: NodeId, name: string): (r: Result<NodeId>)
    requires ParentsIn(s) && current in s
    ensures r.Ok? ==> r.value in s
    ensures r.Err? ==> r.msg == NullOpening
  {
    if LegacyBuild.TagName(s[current].kind) == name then Ok(current)
    else match FindUp(s, current, CloseTest(name), -1, s.Keys)
      case Some(x) => Ok(x)
      case None => Err(NullOpening)
  }

  // -------------------------------------------------------- the close step

  /** getOpenChildren(o), clearChildren and addChildren as written, on the lists. */
  function RegroupStale(s: Doc, o: NodeId): (t: Doc)
    requires ListsIn(s) && ParentsIn(s) && o in s && HasList(s[o].kind)
    ensures t.Keys == s.Keys && ListsIn(t) && ParentsIn(t) && t[o].kind == s[o].kind
  {
    var flat := Collect(s, s[o].children, s.Keys);
    var d := LegacyNode.ClearChildren(OpenCleared(s, flat), o).value;
    ClearedLists(s, o, flat);
    AddChildrenStale(d, o, flat).value
  }

  /** closeNodes on the lists: every open tag it reaches is closed. */
  function CloseNodesStale(s: Doc, n: NodeId): (t: Doc)
    requires ListsIn(s) && n in s
    ensures t.Keys == s.Keys && ListsIn(t)
    ensures forall m :: m in s ==> t[m].parent == s[m].parent && t[m].children == s[m].children
  {
    var reached := Collect(s, s[n].children, s.Keys);
    map m | m in s :: if m in reached && IsOpenTag(s[m].kind) then s[m].(kind := SetClosed(s[m].kind)) else s[m]
  }

  /**
   * The TAG_CLOSE case once resolved to o: the regroup, then closeNodes
   * when o is the root and setClosing(YES) otherwise; clearChildren throws
   * on a text or comment.
   */
  function AwCloseAt(s: Doc, o: NodeId): (r: Result<Doc>)
    requires ListsIn(s) && ParentsIn(s) && o in s
    ensures r.Err? <==> !HasList(s[o].kind)
    ensures r.Ok? ==> r.value.Keys == s.Keys && ListsIn(r.value) && ParentsIn(r.value)
  {
    if !HasList(s[o].kind) then Err(LegacyNode.NoChildren)
    else
      var g := RegroupStale(s, o);
      if g[o].kind.RootE? then Ok(CloseNodesStale(g, o)) else Ok(LegacyNode.SetClosing(g, o, Yes).value)
  }

  // ------------------------------------------------ against the corrected step

  /** One node but o after getOpenChildren and clearChildren, against the flattened document. */
  lemma ClearedAt(a: Doc, c: Doc, o: NodeId, flat: seq<NodeId>, m: NodeId)
    requires SameLists(a, c) && Bare(c) && o in c && m in c && m != o
    ensures var d := SetChildren(OpenCleared(a, flat), o, []);
      var w := Regrouped(c, o, flat, IsOpenTag);
      && d[m].kind == w[m].kind && d[m].children == w[m].children
      && (!HasList(w[m].kind) ==> w[m].children == [])
  {
    var w := Regrouped(c, o, flat, IsOpenTag);
    if m in flat {
      assert w[m] == Rec(c[m].kind, Some(o), if IsOpenTag(c[m].kind) then [] else c[m].children);
    } else {
      assert w[m] == c[m];
    }
  }

  /** Emptying lists keeps every listed child inside the store, and every link. */
  lemma ClearedLists(a: Doc, o: NodeId, flat: seq<NodeId>)
    requires ListsIn(a) && o in a
    ensures var d := SetChildren(OpenCleared(a, flat), o, []);
      && ListsIn(d) && d[o].children == [] && d[o].kind == a[o].kind
      && (forall m :: m in d ==> d[m].parent == a[m].parent)
  {
    var d := SetChildren(OpenCleared(a, flat), o, []);
    forall m, x | m in d && x in d[m].children
      ensures x in d
    {
      assert d[m].children == a[m].children;
    }
  }

  /**
   * After getOpenChildren and clearChildren on lists that agree with a
   * linked older document, every node but o holds the kind and list it holds
   * in the corrected, flattened document.
   */
  lemma ClearedAgree(a: Doc, c: Doc, o: NodeId)
    requires SameLists(a, c) && LegacyNode.LegacyDoc(c) && o in c && HasList(c[o].kind)
    ensures var flat := FlatBelow(c, o, c[o].children, IsOpenTag);
      var d := SetChildren(OpenCleared(a, flat), o, []);
      var w := Flattened(c, o, IsOpenTag);
      && ListsIn(d) && Valid(w) && Bare(w) && d.Keys == w.Keys && w[o] == c[o].(children := flat)
      && (forall m :: m in w && m != o ==> d[m].kind == w[m].kind && d[m].children == w[m].children)
      && d[o].children == [] && d[o].kind == w[o].kind
      && (forall m :: m in d ==> d[m].parent == a[m].parent)
  {
    var flat := FlatBelow(c, o, c[o].children, IsOpenTag);
    var w := Flattened(c, o, IsOpenTag);
    FlattenValid(c, o, IsOpenTag);
    ListsOf(a, c);
    ClearedLists(a, o, flat);
    assert Bare(c);
    forall m | m in w && m != o
      ensures var d := SetChildren(OpenCleared(a, flat), o, []);
        d[m].kind == w[m].kind && d[m].children == w[m].children && (!HasList(w[m].kind) ==> w[m].children == [])
    {
      ClearedAt(a, c, o, flat, m);
    }
  }

  /** Pointing the nodes of E at o and appending flat to o's list, node by node. */
  lemma ReparentShape(d: Doc, o: NodeId, E: seq<NodeId>, flat: seq<NodeId>)
    requires o in d && forall n :: n in E ==> n in d
    ensures var u := SetParents(d, E, Some(o));
      var t := SetChildren(u, o, u[o].children + flat);
      && t.Keys == d.Keys
      && forall m :: m in d ==>
        && t[m].kind == d[m].kind
        && t[m].children == (if m == o then d[o].children + flat else d[m].children)
        && t[m].parent == (if m in E then Some(o) else d[m].parent)
  {
  }

  /** Below o the flattened document has the preorder of the document it came from. */
  lemma FlatBelowPreorder(c: Doc, o: NodeId)
    requires Valid(c) && o in c
    ensures var flat := FlatBelow(c, o, c[o].children, IsOpenTag);
      var w := Flattened(c, o, IsOpenTag);
      && Valid(w) && o in w && ChildrenOf(w, o, flat)
      && PreorderBelow(w, o, flat) == PreorderBelow(c, o, c[o].children)
      && o !in PreorderBelow(w, o, flat)
  {
    var w := Flattened(c, o, IsOpenTag);
    FlatMembers(c, o);
    FlattenPreservesPreorder(c, o, IsOpenTag);
    FlattenedShape(c, o, IsOpenTag);
    var flat := FlatBelow(c, o, c[o].children, IsOpenTag);
    assert w[o].children == flat;
    var X := PreorderBelow(w, o, flat);
    var Y := PreorderBelow(c, o, c[o].children);
    assert Preorder(w, o) == [o] + X;
    assert Preorder(c, o) == [o] + Y;
    assert X == Preorder(w, o)[1..] && Y == Preorder(c, o)[1..];
    NotBelowSelf(w, o);
  }

  /** On lists that agree with a linked older document, each(-1) over what getOpenChildren collected visits every node strictly below o. */
  lemma VisitedBelow(a: Doc, c: Doc, o: NodeId)
    requires SameLists(a, c) && LegacyNode.LegacyDoc(c) && o in c && HasList(c[o].kind)
    ensures var flat := FlatBelow(c, o, c[o].children, IsOpenTag);
      var d := SetChildren(OpenCleared(a, flat), o, []);
      && ListsIn(d) && (forall n :: n in flat ==> n in d)
      && VisitBelow(d, flat, -2, d.Keys) == PreorderBelow(c, o, c[o].children)
  {
    var flat := FlatBelow(c, o, c[o].children, IsOpenTag);
    var d := SetChildren(OpenCleared(a, flat), o, []);
    var w := Flattened(c, o, IsOpenTag);
    ClearedAgree(a, c, o);
    FlatBelowPreorder(c, o);
    var E := PreorderBelow(w, o, flat);
    assert Agree(d, w, E);
    VisitBelowAll(d, w, o, flat, -2, d.Keys);
  }

  /** The regroup as written, once getOpenChildren and each are known. */
  lemma RegroupStaleDef(a: Doc, o: NodeId, flat: seq<NodeId>, E: seq<NodeId>)
    requires ListsIn(a) && ParentsIn(a) && o in a && HasList(a[o].kind)
    requires Collect(a, a[o].children, a.Keys) == flat
    requires var d := SetChildren(OpenCleared(a, flat), o, []);
      ListsIn(d) && (forall n :: n in flat ==> n in d) && VisitBelow(d, flat, -2, d.Keys) == E
    ensures var d := SetChildren(OpenCleared(a, flat), o, []);
      var u := SetParents(d, E, Some(o));
      RegroupStale(a, o) == SetChildren(u, o, u[o].children + flat)
  {
  }

  /** The same on lists that agree with a linked older document. */
  lemma RegroupStaleUnfold(a: Doc, c: Doc, o: NodeId)
    requires SameLists(a, c) && ParentsIn(a) && LegacyNode.LegacyDoc(c) && o in c && HasList(c[o].kind)
    ensures ListsIn(a)
    ensures var flat := FlatBelow(c, o, c[o].children, IsOpenTag);
      var d := SetChildren(OpenCleared(a, flat), o, []);
      var u := SetParents(d, PreorderBelow(c, o, c[o].children), Some(o));
      RegroupStale(a, o) == SetChildren(u, o, u[o].children + flat)
  {
    CollectAt(a, c, o);
    VisitedBelow(a, c, o);
    RegroupStaleDef(a, o, FlatBelow(c, o, c[o].children, IsOpenTag), PreorderBelow(c, o, c[o].children));
  }

  /**
   * On lists that agree with a linked older document, the regroup as
   * written keeps the corrected regroup's kinds and lists, and points every
   * node strictly below o at o; every other link stays.
   */
  lemma RegroupStaleIs(a: Doc, c: Doc, o: NodeId)
    requires SameLists(a, c) && ParentsIn(a) && LegacyNode.LegacyDoc(c) && o in c && HasList(c[o].kind)
    ensures ListsIn(a)
    ensures SameLists(RegroupStale(a, o), Regroup(c, o))
    ensures forall m :: m in a ==> RegroupStale(a, o)[m].parent == if m in Preorder(c, o) && m != o then Some(o) else a[m].parent
  {
    var cs := c[o].children;
    var flat := FlatBelow(c, o, cs, IsOpenTag);
    var d := SetChildren(OpenCleared(a, flat), o, []);
    var w := Flattened(c, o, IsOpenTag);
    var E := PreorderBelow(c, o, cs);
    RegroupStaleUnfold(a, c, o);
    ClearedAgree(a, c, o);
    RegroupIsFlattened(c, o);
    NotBelowSelf(c, o);
    assert Preorder(c, o) == [o] + E;
    ReparentShape(d, o, E, flat);
    var t := RegroupStale(a, o);
    forall m | m in a
      ensures t[m].kind == w[m].kind && t[m].children == w[m].children
      ensures t[m].parent == if m in Preorder(c, o) && m != o then Some(o) else a[m].parent
    {
      assert m in E <==> m in Preorder(c, o) && m != o;
    }
  }

  /** closeNodes on lists that agree with a linked document closes the same tags, and keeps every link. */
  lemma CloseNodesStaleIs(g: Doc, w: Doc, o: NodeId)
    requires SameLists(g, w) && Valid(w) && o in w
    ensures ListsIn(g)
    ensures SameLists(CloseNodesStale(g, o), CloseNodes(w, o))
  {
    CollectAt(g, w, o);
    var t := CloseNodesStale(g, o);
    var v := CloseNodes(w, o);
    forall m | m in g
      ensures t[m].kind == v[m].kind
    {
    }
  }

  /** setClosing on lists that agree changes the same kind. */
  lemma SetClosingSame(g: Doc, w: Doc, o: NodeId)
    requires SameLists(g, w) && o in w && w[o].kind.TagE?
    ensures LegacyNode.SetClosing(g, o, Yes).Ok? && LegacyNode.SetClosing(w, o, Yes).Ok?
    ensures SameLists(LegacyNode.SetClosing(g, o, Yes).value, LegacyNode.SetClosing(w, o, Yes).value)
    ensures forall m :: m in g ==> LegacyNode.SetClosing(g, o, Yes).value[m].parent == g[m].parent
  {
  }

  /** After the regroup, closeNodes or setClosing as on lists that agree with a linked document. */
  lemma CloseAfterRegroup(a: Doc, w: Doc, o: NodeId)
    requires ListsIn(a) && ParentsIn(a) && o in a && HasList(a[o].kind)
    requires SameLists(RegroupStale(a, o), w) && Valid(w) && o in w
    ensures AwCloseAt(a, o).Ok?
    ensures w[o].kind.RootE? ==> SameLists(AwCloseAt(a, o).value, CloseNodes(w, o))
    ensures !w[o].kind.RootE? ==>
      LegacyNode.SetClosing(w, o, Yes).Ok? && SameLists(AwCloseAt(a, o).value, LegacyNode.SetClosing(w, o, Yes).value)
    ensures forall m :: m in a ==> AwCloseAt(a, o).value[m].parent == RegroupStale(a, o)[m].parent
  {
    var g := RegroupStale(a, o);
    if g[o].kind.RootE? {
      CloseNodesStaleIs(g, w, o);
    } else {
      SetClosingSame(g, w, o);
    }
  }

  /** The corrected close step, once regrouped. */
  lemma LegacyCloseAtUnfold(c: Doc, o: NodeId)
    requires Valid(c) && o in c && HasList(c[o].kind)
    ensures Valid(Regroup(c, o)) && o in Regroup(c, o)
    ensures var w := Regroup(c, o);
      LegacyCloseAt(c, o) == if w[o].kind.RootE? then CloseNodes(w, o) else LegacyNode.SetClosing(w, o, Yes).value
  {
    RegroupIsFlattened(c, o);
    FlattenValid(c, o, IsOpenTag);
  }

  /**
   * The close step as written, against the corrected one: it succeeds, it
   * leaves the kinds and lists of LegacyBuild.LegacyCloseAt, and it points
   * every node strictly below o at o, leaving every other link as it was.
   */
  lemma AwCloseAtStale(a: Doc, c: Doc, o: NodeId)
    requires SameLists(a, c) && ParentsIn(a) && LegacyNode.LegacyDoc(c) && o in c && HasList(c[o].kind)
    ensures ListsIn(a)
    ensures AwCloseAt(a, o).Ok?
    ensures SameLists(AwCloseAt(a, o).value, LegacyCloseAt(c, o))
    ensures forall m :: m in a ==> AwCloseAt(a, o).value[m].parent == if m in Preorder(c, o) && m != o then Some(o) else a[m].parent
  {
    RegroupStaleIs(a, c, o);
    LegacyCloseAtUnfold(c, o);
    CloseAfterRegroup(a, Regroup(c, o), o);
  }

  // ------------------------------------------------------------- the loop

  /** What each step of the loop relies on: lists and links inside the store, the root and current in it, every node below next. */
  ghost predicate AwReady(lb: LegacyBuilder) {
    && ListsIn(lb.b.doc) && ParentsIn(lb.b.doc)
    && 0 in lb.b.doc && lb.b.current in lb.b.doc
    && forall m :: m in lb.b.doc ==> m < lb.b.next
  }

  /**
   * The TEXT, COMMENT, TAG_SELF and TAG_OPEN cases: the new node, without a
   * parent, goes to current through addChild, and becomes current when it
   * is an opening tag; addChild throws when current holds no list.
   */
  function AwAddToken(lb: LegacyBuilder, t: Token): (r: Result<LegacyBuilder>)
    requires AwReady(lb) && t.kind != TagClose
    ensures r.Err? <==> !HasList(lb.b.doc[lb.b.current].kind)
    ensures r.Ok? ==> AwReady(r.value) && r.value.b.doc.Keys == lb.b.doc.Keys + {lb.b.next}
    ensures r.Ok? ==> r.value.b.doc[lb.b.next] == Rec(LegacyElemOf(t).0, Some(lb.b.current), [])
    ensures r.Ok? ==> r.value.rests == lb.rests[lb.b.next := LegacyElemOf(t).1]
  {
    var b := lb.b;
    var er := LegacyElemOf(t);
    var s := b.doc[b.next := Rec(er.0, None, [])];
    AddedLists(b.doc, b.current, b.next, er.0);
    match LegacyNode.AddChild(s, b.current, b.next)
    case Err(msg) => Err(msg)
    case Ok(d) => Ok(LegacyBuilder(Builder(d, if t.kind == TagOpen then b.next else b.current, b.next + 1), lb.rests[b.next := er.1]))
  }

  /** addChild of a fresh node keeps every list and link inside the store. */
  lemma AddedLists(s: Doc, cur: NodeId, w: NodeId, e: Elem)
    requires ListsIn(s) && ParentsIn(s) && cur in s && w !in s
    ensures var d := LegacyNode.AddChild(s[w := Rec(e, None, [])], cur, w);
      d.Ok? ==> ListsIn(d.value) && ParentsIn(d.value) && d.value.Keys == s.Keys + {w} && d.value[w] == Rec(e, Some(cur), [])
  {
  }

  /**
   * The TAG_CLOSE case: the close tag resolves through findParent, the
   * element is regrouped and closed, and current moves to its parent, or
   * stays at the root; the fatal error when nothing resolves. (A closed
   * tag always has a parent here; were it missing, current would stay.)
   */
  function AwCloseTag(lb: LegacyBuilder, name: string): (r: Result<LegacyBuilder>)
    requires AwReady(lb)
    ensures r.Ok? ==> AwReady(r.value) && r.value.b.doc.Keys == lb.b.doc.Keys && r.value.b.next == lb.b.next && r.value.rests == lb.rests
  {
    var b := lb.b;
    match AwOpening(b.doc, b.current, name)
    case Err(msg) => Err(msg)
    case Ok(o) =>
      match AwCloseAt(b.doc, o)
      case Err(msg) => Err(msg)
      case Ok(t) =>
        var up := if b.doc[o].kind.RootE? then o else match t[o].parent case Some(p) => p case None => o;
        Ok(LegacyBuilder(Builder(t, up, b.next), lb.rests))
  }

  /** One token of the loop as written. */
  function AwStep(lb: LegacyBuilder, t: Token): (r: Result<LegacyBuilder>)
    requires AwReady(lb)
    ensures r.Ok? ==> AwReady(r.value)
  {
    if t.kind == TagClose then AwCloseTag(lb, t.tag) else AwAddToken(lb, t)
  }

  /** Node::new_Root(): the root, with id 0 and a null parent, alone and current. */
  function AwStart(): (lb: LegacyBuilder)
    ensures AwReady(lb) && lb.b.doc.Keys == {0} && lb.b.doc[0].parent.None?
  {
    LegacyBuilder(Builder(map[0 := Rec(RootE(RootData()), None, [])], 0, 1), map[])
  }

  /** The loop over the tokens, as a fold of AwStep; the first failing step fails it. */
  function AwLoop(tokens: seq<Token>): (r: Result<LegacyBuilder>)
    ensures r.Ok? ==> AwReady(r.value)
    decreases |tokens|
  {
    if |tokens| == 0 then Ok(AwStart())
    else match AwLoop(tokens[..|tokens| - 1])
      case Err(msg) => Err(msg)
      case Ok(lb) => AwStep(lb, tokens[|tokens| - 1])
  }

  /** buildTree as written: the loop, then closeNodes on the root. */
  function AwParse(tokens: seq<Token>): (r: Result<LegacyTree>)
  {
    match AwLoop(tokens)
    case Err(msg) => Err(msg)
    case Ok(lb) => Ok(LegacyTree(CloseNodesStale(lb.b.doc, 0), 0, lb.rests))
  }

  // ------------------------------------------------ against the corrected loop

  /**
   * The loop as written beside the corrected trace: the same current node,
   * counter and attribute texts, the same kinds and lists, and the same
   * links along the open path, whose root has no parent.
   */
  ghost predicate Shadows(a: LegacyBuilder, q: LegacyTrace) {
    && a.b.current == q.lb.b.current && a.b.next == q.lb.b.next && a.rests == q.lb.rests
    && SameLists(a.b.doc, q.lb.b.doc) && ParentsIn(a.b.doc)
    && |q.chain| > 0 && q.chain[0] in a.b.doc && a.b.doc[q.chain[0]].parent.None?
    && forall j :: 0 < j < |q.chain| ==> q.chain[j] in a.b.doc && a.b.doc[q.chain[j]].parent == q.lb.b.doc[q.chain[j]].parent
  }

  /** What the corrected trace guarantees, unpacked. */
  lemma TracksFacts(q: LegacyTrace, made: seq<Elem>, stack: seq<string>, plain: bool)
    requires LegacyTracks(q, made, stack, plain)
    ensures var c := q.lb.b.doc;
      && LegacyNode.LegacyDoc(c) && OpenPath(c, q.chain) && q.chain[0] == 0
      && q.lb.b.current == q.chain[|q.chain| - 1] && HasList(c[q.lb.b.current].kind)
      && (forall m :: m in c ==> m < q.lb.b.next)
  {
    LegacyTracksReady(q, made, stack, plain);
    LegacyTracksParts(q, made, stack, plain);
    PathIsOpen(q.lb.b.doc, 0, q.lb.b.next, q.chain);
  }

  lemma ShadowReady(a: LegacyBuilder, q: LegacyTrace, made: seq<Elem>, stack: seq<string>, plain: bool)
    requires LegacyTracks(q, made, stack, plain) && Shadows(a, q)
    ensures AwReady(a)
  {
    TracksFacts(q, made, stack, plain);
    ListsOf(a.b.doc, q.lb.b.doc);
  }

  /** With the links agreeing along the open path, a close tag resolves to the same element. */
  lemma OpeningAgrees(a: Doc, c: Doc, chain: seq<NodeId>, name: string)
    requires OpenPath(c, chain) && ParentsIn(a) && SameLists(a, c) && a[chain[0]].parent.None?
    requires forall j :: 0 < j < |chain| ==> a[chain[j]].parent == c[chain[j]].parent
    ensures AwOpening(a, chain[|chain| - 1], name) == LegacyOpening(c, chain[|chain| - 1], name)
  {
    var n := chain[|chain| - 1];
    assert n in c && a[n].kind == c[n].kind;
    if LegacyBuild.TagName(c[n].kind) != name {
      forall j | 0 <= j < |chain| - 1
        ensures chain[j] in a.Keys
      {
        assert chain[j] in c;
      }
      FindUpOnPath(a, c, chain, |chain| - 1, CloseTest(name), -1, a.Keys);
    }
  }

  /** A close tag resolves to one index of the open path only. */
  lemma ClosesAtUnique(q: LegacyTrace, made: seq<Elem>, stack: seq<string>, plain: bool, name: string, k1: nat, k2: nat)
    requires LegacyTracks(q, made, stack, plain) && ClosesAt(q, stack, name, k1) && ClosesAt(q, stack, name, k2)
    ensures k1 == k2
  {
    TracksFacts(q, made, stack, plain);
    SpineLinks(q.lb.b.doc, q.chain);
  }

  /** After the close at the k-th node of the path, the links along the shorter path still agree. */
  lemma ClosedLinks(a: Doc, c: Doc, t: Doc, u: Doc, chain: seq<NodeId>, ch: seq<NodeId>, k: nat)
    requires OpenPath(c, chain) && k < |chain| && ch == chain[..if k == 0 then 1 else k]
    requires a.Keys == c.Keys && a[chain[0]].parent.None?
    requires forall j :: 0 < j < |chain| ==> a[chain[j]].parent == c[chain[j]].parent
    requires t.Keys == a.Keys && u.Keys == c.Keys && OpenPath(u, ch)
    requires forall m :: m in a ==> t[m].parent == if m in Preorder(c, chain[k]) && m != chain[k] then Some(chain[k]) else a[m].parent
    ensures t[ch[0]].parent.None?
    ensures forall j :: 0 < j < |ch| ==> t[ch[j]].parent == u[ch[j]].parent
  {
    assert ch[0] == chain[0];
    if k > 0 {
      OutsideLater(c, chain, 0, k);
      forall j | 0 < j < |ch|
        ensures t[ch[j]].parent == u[ch[j]].parent
      {
        assert ch[j] == chain[j] && ch[j - 1] == chain[j - 1];
        OutsideLater(c, chain, j, k);
        assert t[chain[j]].parent == a[chain[j]].parent;
        SpineLinks(c, chain);
        SpineLinks(u, ch);
      }
    }
  }

  /** A close tag that resolved to the k-th node of the path: the loop as written lands beside the closed trace. */
  lemma ClosedShadows(a: LegacyBuilder, q: LegacyTrace, made: seq<Elem>, stack: seq<string>, plain: bool, name: string, k: nat)
    requires LegacyTracks(q, made, stack, plain) && Shadows(a, q) && ClosesAt(q, stack, name, k)
    requires HasList(q.lb.b.doc[q.chain[k]].kind)
    ensures AwReady(a)
    ensures AwCloseTag(a, name).Ok? && Shadows(AwCloseTag(a, name).value, ClosedTrace(q, k))
  {
    ShadowReady(a, q, made, stack, plain);
    TracksFacts(q, made, stack, plain);
    var c := q.lb.b.doc;
    var chain := q.chain;
    var o := chain[k];
    OpeningAgrees(a.b.doc, c, chain, name);
    AwCloseAtStale(a.b.doc, c, o);
    var t := AwCloseAt(a.b.doc, o).value;
    LegacyTracksParts(q, made, stack, plain);
    ClosePathNames(q.lb.b, chain, q.order, made, name, k, stack);
    ClosedTracks(q, made, stack, plain, name, k);
    var r := ClosedTrace(q, k);
    TracksFacts(r, made, CloseNames(stack, name).value, plain);
    ClosedLinks(a.b.doc, c, t, r.lb.b.doc, chain, r.chain, k);
    SpineLinks(c, chain);
    assert AwCloseTag(a, name).value.b.current == r.lb.b.current;
  }

  /** A close tag on the trace: the loop as written fails with it, or lands beside it. */
  lemma AwCloseShadows(a: LegacyBuilder, q: LegacyTrace, made: seq<Elem>, stack: seq<string>, plain: bool, t: Token)
    requires LegacyTracks(q, made, stack, plain) && Shadows(a, q) && t.kind == TagClose
    ensures AwReady(a)
    ensures AwStep(a, t).Err? <==> LegacyCloseTrace(q, made, stack, plain, t).None?
    ensures AwStep(a, t).Err? ==> AwStep(a, t).msg == NullOpening
    ensures AwStep(a, t).Ok? ==> Shadows(AwStep(a, t).value, LegacyCloseTrace(q, made, stack, plain, t).value)
  {
    ShadowReady(a, q, made, stack, plain);
    TracksFacts(q, made, stack, plain);
    var c := q.lb.b.doc;
    OpeningAgrees(a.b.doc, c, q.chain, t.tag);
    LegacyCloseOpens(q, made, stack, plain, t.tag);
    if LegacyOpening(c, q.lb.b.current, t.tag).Ok? {
      var k :| ClosesAt(q, stack, t.tag, k);
      forall k2 | ClosesAt(q, stack, t.tag, k2)
        ensures k2 == k
      {
        ClosesAtUnique(q, made, stack, plain, t.tag, k, k2);
      }
      LegacyClosePops(q, made, stack, plain, t, k);
      assert LegacyCloseTrace(q, made, stack, plain, t) == Some(ClosedTrace(q, k));
      ClosedShadows(a, q, made, stack, plain, t.tag, k);
    }
  }

  /** addChild of a fresh node on lists that agree: the same lists after it, and only the new node's link set, to current. */
  lemma AddChildSame(a: Doc, c: Doc, cur: NodeId, w: NodeId, e: Elem)
    requires SameLists(a, c) && cur in c && HasList(c[cur].kind) && w !in c
    ensures LegacyNode.AddChild(a[w := Rec(e, None, [])], cur, w).Ok?
    ensures var a1 := LegacyNode.AddChild(a[w := Rec(e, None, [])], cur, w).value;
      var c1 := LegacyAddNew(c, cur, w, e);
      && SameLists(a1, c1)
      && (forall m :: m in a1 ==> a1[m].parent == if m == w then Some(cur) else a[m].parent)
      && (forall m :: m in c1 ==> c1[m].parent == if m == w then Some(cur) else c[m].parent)
  {
  }

  /** The added node's builder, unpacked on both sides. */
  lemma AddedParts(a: LegacyBuilder, q: LegacyTrace, t: Token)
    requires AwReady(a) && Ready(q.lb.b, 0) && t.kind != TagClose
    requires SameLists(a.b.doc, q.lb.b.doc) && a.b.current == q.lb.b.current && a.b.next == q.lb.b.next && a.rests == q.lb.rests
    requires HasList(q.lb.b.doc[q.lb.b.current].kind)
    ensures AwStep(a, t).Ok?
    ensures var r := AwStep(a, t).value; var n := AddedTrace(q, t).lb;
      && r.b.current == n.b.current && r.b.next == n.b.next && r.rests == n.rests
      && r.b.doc == LegacyNode.AddChild(a.b.doc[a.b.next := Rec(LegacyElemOf(t).0, None, [])], a.b.current, a.b.next).value
      && n.b.doc == LegacyAddNew(q.lb.b.doc, q.lb.b.current, q.lb.b.next, LegacyElemOf(t).0)
  {
    assert AwStep(a, t) == AwAddToken(a, t);
  }

  /** Any other token on the trace: the loop as written adds the same node and lands beside the trace. */
  lemma AddedShadows(a: LegacyBuilder, q: LegacyTrace, made: seq<Elem>, stack: seq<string>, plain: bool, t: Token)
    requires LegacyTracks(q, made, stack, plain) && Shadows(a, q) && t.kind != TagClose
    ensures AwReady(a) && Ready(q.lb.b, 0)
    ensures AwStep(a, t).Ok? && Shadows(AwStep(a, t).value, AddedTrace(q, t))
  {
    ShadowReady(a, q, made, stack, plain);
    TracksFacts(q, made, stack, plain);
    LegacyTracksReady(q, made, stack, plain);
    var c := q.lb.b.doc;
    var w := q.lb.b.next;
    var cur := q.lb.b.current;
    AddChildSame(a.b.doc, c, cur, w, LegacyElemOf(t).0);
    AddedParts(a, q, t);
    var r := AwStep(a, t).value;
    var n := AddedTrace(q, t);
    var d := r.b.doc;
    var e := n.lb.b.doc;
    assert SameLists(d, e);
    assert ParentsIn(d);
    assert n.chain[0] == q.chain[0] && n.chain[0] in d && d[n.chain[0]].parent == a.b.doc[q.chain[0]].parent;
    forall j | 0 < j < |n.chain|
      ensures n.chain[j] in d && d[n.chain[j]].parent == e[n.chain[j]].parent
    {
      if j < |q.chain| {
        assert n.chain[j] == q.chain[j] && q.chain[j] in c;
        assert q.chain[j] != w;
      } else {
        assert n.chain[j] == w;
      }
    }
  }

  /** One token on the trace: the loop as written fails exactly when the trace does, and otherwise lands beside it. */
  lemma AwStepShadows(a: LegacyBuilder, q: LegacyTrace, made: seq<Elem>, stack: seq<string>, plain: bool, t: Token)
    requires LegacyTracks(q, made, stack, plain) && Shadows(a, q)
    ensures AwReady(a)
    ensures AwStep(a, t).Err? <==> LegacyStepTrace(q, made, stack, plain, t).None?
    ensures AwStep(a, t).Err? ==> AwStep(a, t).msg == NullOpening
    ensures AwStep(a, t).Ok? ==> Shadows(AwStep(a, t).value, LegacyStepTrace(q, made, stack, plain, t).value)
  {
    if t.kind == TagClose {
      AwCloseShadows(a, q, made, stack, plain, t);
    } else {
      AddedShadows(a, q, made, stack, plain, t);
    }
  }

  /** The loop as written over any tokens, beside the corrected trace over the same tokens. */
  lemma {:induction false} AwLoopShadows(tokens: seq<Token>)
    ensures AwLoop(tokens).Err? <==> LegacyTraced(tokens).None?
    ensures AwLoop(tokens).Err? ==> AwLoop(tokens).msg == NullOpening
    ensures AwLoop(tokens).Ok? ==> Shadows(AwLoop(tokens).value, LegacyTraced(tokens).value)
    decreases |tokens|
  {
    if |tokens| > 0 {
      var init := tokens[..|tokens| - 1];
      var t := tokens[|tokens| - 1];
      AwLoopShadows(init);
      if LegacyTraced(init).Some? {
        var q := LegacyTraced(init).value;
        AwStepShadows(AwLoop(init).value, q, LegacyMade(init), OpenNames(init).value, NoRawAtts(init), t);
        assert LegacyTraced(tokens) == LegacyStepTrace(q, LegacyMade(init), OpenNames(init).value, NoRawAtts(init), t);
      }
    } else {
      assert LegacyTraced(tokens).value.lb.b == Start(0);
    }
  }

  /**
   * buildTree as written against the corrected one: it fails exactly when
   * the stack of open names does, with the same fatal error; otherwise its
   * tree holds the nodes, kinds, lists and attribute texts of
   * LegacyBuild.LegacyParse, and the root has no parent.
   */
  lemma AwParseIs(tokens: seq<Token>)
    ensures AwParse(tokens).Err? <==> OpenNames(tokens).None?
    ensures AwParse(tokens).Err? ==> AwParse(tokens).msg == NullOpening
    ensures AwParse(tokens).Ok? ==>
      var r := AwParse(tokens).value;
      var l := LegacyParse(tokens).value;
      && r.root == l.root == 0 && r.rests == l.rests && SameLists(r.doc, l.doc)
      && r.doc[0].parent.None?
  {
    AwLoopShadows(tokens);
    if AwLoop(tokens).Ok? {
      var a := AwLoop(tokens).value;
      var q := LegacyTraced(tokens).value;
      TracksFacts(q, LegacyMade(tokens), OpenNames(tokens).value, NoRawAtts(tokens));
      CloseNodesStaleIs(a.b.doc, q.lb.b.doc, 0);
      assert LegacyParse(tokens).value.doc == CloseNodes(q.lb.b.doc, 0);
    }
  }

  // ------------------------------------------------ buildTree, token by token

  /** One more token extends the fold by one step. */
  lemma AwLoopStep(tokens: seq<Token>, i: nat)
    requires i < |tokens|
    ensures AwLoop(tokens[..i + 1]) == match AwLoop(tokens[..i])
      case Err(msg) => Err(msg)
      case Ok(lb) => AwStep(lb, tokens[i])
  {
    assert tokens[..i + 1][..i] == tokens[..i];
  }

  /** Once a step fails, the fold keeps that failure to the end. */
  lemma {:induction false} AwLoopStuck(tokens: seq<Token>, i: nat, j: nat)
    requires i <= j <= |tokens| && AwLoop(tokens[..i]).Err?
    ensures AwLoop(tokens[..j]) == AwLoop(tokens[..i])
    decreases j - i
  {
    if i < j {
      AwLoopStep(tokens, i);
      AwLoopStuck(tokens, i + 1, j);
    }
  }

  /**
   * buildTree of the older generation as written, token by token: it
   * returns AwParse, so it fails exactly when the stack of open names does,
   * with the fatal error, and otherwise holds the kinds and lists of the
   * corrected tree (LegacyBuild.LegacyParse) under a root without a parent.
   */
  method LegacyBuildTree(tokens: seq<Token>) returns (r: Result<LegacyTree>)
    ensures r == AwParse(tokens)
    ensures r.Err? <==> OpenNames(tokens).None?
    ensures r.Err? ==> r.msg == NullOpening
    ensures r.Ok? ==> r.value.root == 0 && r.value.doc[0].parent.None? && SameLists(r.value.doc, LegacyParse(tokens).value.doc)
  {
    AwParseIs(tokens);
    var root := 0;
    var lb := LegacyBuilder(Builder(map[root := Rec(RootE(RootData()), None, [])], root, 1), map[]);
    var i := 0;
    assert tokens[..0] == [];
    while i < |tokens|
      invariant 0 <= i <= |tokens|
      invariant AwLoop(tokens[..i]) == Ok(lb)
    {
      AwLoopStep(tokens, i);
      var res := AwStep(lb, tokens[i]);
      if res.Err? {
        AwLoopStuck(tokens, i + 1, |tokens|);
        assert tokens[..|tokens|] == tokens;
        return Err(res.msg);
      }
      lb := res.value;
      i := i + 1;
    }
    assert tokens[..i] == tokens;
    r := Ok(LegacyTree(CloseNodesStale(lb.b.doc, root), root, lb.rests));
  }

  // ------------------------------------------------ the stale link, on an example

  /** The tag a close tag names, open and without attributes. */
  function PlainOpen(name: string): (e: Elem)
    ensures IsOpenTag(e) && e.data.tag == name
  {
    TagE(TagData(name, No, [], [], []))
  }

  /** The tokens of `<a><b>x</b></a>` for any tag names a, b and text x, without attribute text. */
  function NestedTokens(a: string, b: string, x: string): (ts: seq<Token>)
    ensures |ts| == 5 && NoRawAtts(ts)
  {
    [Token(TagOpen, "", a, ""), Token(TagOpen, "", b, ""), Token(Text, x, "", ""),
     Token(TagClose, "", b, ""), Token(TagClose, "", a, "")]
  }

  /** The builder after `<a><b>`: a under the root, b under a and current. */
  function OpenedTwo(a: string, b: string): (lb: LegacyBuilder)
    ensures AwReady(lb)
  {
    LegacyBuilder(Builder(map[0 := Rec(RootE(RootData()), None, [1]), 1 := Rec(PlainOpen(a), Some(0), [2]),
                              2 := Rec(PlainOpen(b), Some(1), [])], 2, 3), map[1 := "", 2 := ""])
  }

  /** The store after `<a><b>x`, before b is closed. */
  function BeforeInner(a: string, b: string, x: string): (s: Doc)
    ensures ListsIn(s) && ParentsIn(s) && s.Keys == {0, 1, 2, 3}
  {
    map[0 := Rec(RootE(RootData()), None, [1]), 1 := Rec(PlainOpen(a), Some(0), [2]),
        2 := Rec(PlainOpen(b), Some(1), [3]), 3 := Rec(TextE(x), Some(2), [])]
  }

  /** The store after `<a><b>x</b>`: b is closed. */
  function AfterInner(a: string, b: string, x: string): (s: Doc)
    ensures ListsIn(s) && ParentsIn(s) && s.Keys == {0, 1, 2, 3}
  {
    BeforeInner(a, b, x)[2 := Rec(TagE(TagData(b, Yes, [], [], [])), Some(1), [3])]
  }

  /** The builder after `<a><b>x`: b current. */
  function TextAdded(a: string, b: string, x: string): (lb: LegacyBuilder)
    ensures AwReady(lb) && lb.b.current == 2 && lb.b.doc == BeforeInner(a, b, x)
  {
    LegacyBuilder(Builder(BeforeInner(a, b, x), 2, 4), map[1 := "", 2 := "", 3 := ""])
  }

  /** The builder after `<a><b>x</b>`: a current. */
  function ClosedInner(a: string, b: string, x: string): (lb: LegacyBuilder)
    ensures AwReady(lb) && lb.b.current == 1 && lb.b.doc == AfterInner(a, b, x)
  {
    LegacyBuilder(Builder(AfterInner(a, b, x), 1, 4), map[1 := "", 2 := "", 3 := ""])
  }

  /** A text, comment or tag token as written: the new node goes at the end of current's list, pointing at current. */
  lemma AddStepIs(lb: LegacyBuilder, t: Token)
    requires AwReady(lb) && t.kind != TagClose && HasList(lb.b.doc[lb.b.current].kind)
    ensures var b := lb.b; var e := LegacyElemOf(t);
      var d := b.doc[b.current := b.doc[b.current].(children := b.doc[b.current].children + [b.next])];
      AwStep(lb, t) == Ok(LegacyBuilder(Builder(d[b.next := Rec(e.0, Some(b.current), [])],
                                               if t.kind == TagOpen then b.next else b.current, b.next + 1),
                                       lb.rests[b.next := e.1]))
  {
    var b := lb.b;
    var e := LegacyElemOf(t);
    var s := b.doc[b.next := Rec(e.0, None, [])];
    var d := b.doc[b.current := b.doc[b.current].(children := b.doc[b.current].children + [b.next])];
    assert s[b.current] == b.doc[b.current];
    assert LegacyNode.AddChild(s, b.current, b.next).value == d[b.next := Rec(e.0, Some(b.current), [])];
    assert AwStep(lb, t) == AwAddToken(lb, t);
  }

  /** The close step as written once the opening element is known. */
  lemma CloseStepIs(lb: LegacyBuilder, t: Token, o: NodeId, d: Doc)
    requires AwReady(lb) && t.kind == TagClose
    requires AwOpening(lb.b.doc, lb.b.current, t.tag) == Ok(o) && AwCloseAt(lb.b.doc, o) == Ok(d)
    requires !lb.b.doc[o].kind.RootE? && d[o].parent.Some?
    ensures AwStep(lb, t) == Ok(LegacyBuilder(Builder(d, d[o].parent.value, lb.b.next), lb.rests))
  {
  }

  /** A close tag naming the current element resolves to it. */
  lemma OpensAt(s: Doc, n: NodeId, name: string)
    requires ParentsIn(s) && n in s && s[n].kind == PlainOpen(name)
    ensures AwOpening(s, n, name) == Ok(n)
  {
  }

  /** The builder after `<a>`: a under the root and current. */
  function OpenedOne(a: string): (lb: LegacyBuilder)
    ensures AwReady(lb)
  {
    LegacyBuilder(Builder(map[0 := Rec(RootE(RootData()), None, [1]), 1 := Rec(PlainOpen(a), Some(0), [])], 1, 2), map[1 := ""])
  }

  /** `<a>` from the root. */
  lemma NestedOpenA(a: string, b: string, x: string)
    ensures AwStep(AwStart(), NestedTokens(a, b, x)[0]) == Ok(OpenedOne(a))
  {
    var t := NestedTokens(a, b, x)[0];
    AddStepIs(AwStart(), t);
    assert LegacyElemOf(t) == (PlainOpen(a), "");
    var m0 := AwStart().b.doc;
    assert m0[0].children + [1] == [1];
    assert AwStep(AwStart(), t).value.b.doc == m0[0 := m0[0].(children := [1])][1 := Rec(PlainOpen(a), Some(0), [])];
    assert AwStep(AwStart(), t).value.b.doc == OpenedOne(a).b.doc;
    assert AwStart().rests[1 := ""] == OpenedOne(a).rests;
  }

  /** `<b>` under a. */
  lemma NestedOpenB(a: string, b: string, x: string)
    ensures AwStep(OpenedOne(a), NestedTokens(a, b, x)[1]) == Ok(OpenedTwo(a, b))
  {
    var lb1 := OpenedOne(a);
    var u := NestedTokens(a, b, x)[1];
    AddStepIs(lb1, u);
    assert LegacyElemOf(u) == (PlainOpen(b), "");
    var m1 := lb1.b.doc;
    assert m1[1].children + [2] == [2];
    var lb2 := AwStep(lb1, u).value;
    assert lb2.b.doc == m1[1 := m1[1].(children := [2])][2 := Rec(PlainOpen(b), Some(1), [])];
    assert lb2.b.doc == OpenedTwo(a, b).b.doc;
  }

  /** The text x goes under b. */
  lemma NestedText(a: string, b: string, x: string)
    ensures AwStep(OpenedTwo(a, b), NestedTokens(a, b, x)[2]) == Ok(TextAdded(a, b, x))
  {
    var lb := OpenedTwo(a, b);
    var t := NestedTokens(a, b, x)[2];
    AddStepIs(lb, t);
    var m := lb.b.doc;
    assert m[2].children + [3] == [3];
    assert AwStep(lb, t).value.b.doc == m[2 := m[2].(children := [3])][3 := Rec(TextE(x), Some(2), [])];
    assert AwStep(lb, t).value.b.doc == BeforeInner(a, b, x);
  }

  /** getOpenChildren(b) before b closes collects x; each(-1) from x visits x. */
  lemma InnerWalk(a: string, b: string, x: string)
    ensures var s := BeforeInner(a, b, x);
      var d := SetChildren(OpenCleared(s, [3]), 2, []);
      && Collect(s, s[2].children, s.Keys) == [3]
      && ListsIn(d) && 3 in d && VisitBelow(d, [3], -2, d.Keys) == [3]
  {
    var s := BeforeInner(a, b, x);
    assert Collect(s, [], s.Keys) == [];
    var d := SetChildren(OpenCleared(s, [3]), 2, []);
    assert d == s[2 := s[2].(children := [])];
    assert VisitBelow(d, [], -4, d.Keys - {3}) == [];
  }

  /** Closing b: nothing moves. */
  lemma InnerRegroup(a: string, b: string, x: string)
    ensures RegroupStale(BeforeInner(a, b, x), 2) == BeforeInner(a, b, x)
  {
    var s := BeforeInner(a, b, x);
    var d := SetChildren(OpenCleared(s, [3]), 2, []);
    InnerWalk(a, b, x);
    RegroupStaleDef(s, 2, [3], [3]);
    assert d == s[2 := s[2].(children := [])];
    assert SetParents(d, [3], Some(2)) == d;
    assert d[2].children + [3] == [3];
  }

  /** `</b>` resolves to b, leaves x under b and closes b; a becomes current. */
  lemma NestedInner(a: string, b: string, x: string)
    ensures AwStep(TextAdded(a, b, x), NestedTokens(a, b, x)[3]) == Ok(ClosedInner(a, b, x))
  {
    var lb := TextAdded(a, b, x);
    InnerRegroup(a, b, x);
    OpensAt(BeforeInner(a, b, x), 2, b);
    assert AwCloseAt(lb.b.doc, 2) == Ok(AfterInner(a, b, x));
    CloseStepIs(lb, NestedTokens(a, b, x)[3], 2, AfterInner(a, b, x));
  }

  /** getOpenChildren(a) after `</b>` collects b alone, b being closed. */
  lemma OuterCollect(a: string, b: string, x: string)
    ensures Collect(AfterInner(a, b, x), [2], AfterInner(a, b, x).Keys) == [2]
  {
    var s := AfterInner(a, b, x);
    assert Collect(s, [], s.Keys) == [];
  }

  /** each(-1) from b, a's list cleared: b and then x. */
  lemma OuterVisit(a: string, b: string, x: string, d: Doc)
    requires d == AfterInner(a, b, x)[1 := AfterInner(a, b, x)[1].(children := [])]
    ensures ListsIn(d) && 2 in d
    ensures VisitBelow(d, [2], -2, d.Keys) == [2, 3]
  {
    assert VisitBelow(d, [], -4, d.Keys - {2}) == [];
    assert VisitAt(d, 3, -4, d.Keys - {2}) == [3];
    assert VisitBelow(d, [3], -4, d.Keys - {2}) == [3];
    assert VisitAt(d, 2, -2, d.Keys) == [2, 3];
  }

  /**
   * Closing a in that store as written: each(-1) walks down from b into its
   * list, so x ends up pointing at a while b still lists x.
   */
  lemma OuterRegroup(a: string, b: string, x: string)
    ensures var t := RegroupStale(AfterInner(a, b, x), 1);
      && t[1].children == [2] && t[2].children == [3]
      && t[1].parent == Some(0) && t[2].parent == Some(1) && t[3].parent == Some(1)
  {
    var s := AfterInner(a, b, x);
    var d := SetChildren(OpenCleared(s, [2]), 1, []);
    assert d == s[1 := s[1].(children := [])];
    OuterCollect(a, b, x);
    OuterVisit(a, b, x, d);
    RegroupStaleDef(s, 1, [2], [2, 3]);
  }

  /** The close of a in that store: the regroup, then setClosing(YES) on a. */
  lemma OuterClose(a: string, b: string, x: string)
    ensures var r := AwCloseAt(AfterInner(a, b, x), 1);
      && r.Ok? && r.value[1].parent == Some(0)
      && r.value[2].children == [3] && r.value[3].parent == Some(1)
  {
    OuterRegroup(a, b, x);
  }

  /** `</a>` resolves to a and closes it with the stale link; the root becomes current. */
  lemma NestedOuter(a: string, b: string, x: string)
    ensures var r := AwStep(ClosedInner(a, b, x), NestedTokens(a, b, x)[4]);
      && r.Ok? && 2 in r.value.b.doc && 3 in r.value.b.doc
      && r.value.b.doc[2].children == [3] && r.value.b.doc[3].parent == Some(1)
  {
    var lb := ClosedInner(a, b, x);
    OuterClose(a, b, x);
    OpensAt(AfterInner(a, b, x), 1, a);
    var d := AwCloseAt(lb.b.doc, 1).value;
    CloseStepIs(lb, NestedTokens(a, b, x)[4], 1, d);
  }

  /** The loop as written over `<a><b>x`. */
  lemma NestedPrefix(a: string, b: string, x: string)
    ensures AwLoop(NestedTokens(a, b, x)[..3]) == Ok(TextAdded(a, b, x))
  {
    var ts := NestedTokens(a, b, x);
    assert ts[..0] == [];
    assert AwLoop(ts[..0]) == Ok(AwStart());
    AwLoopStep(ts, 0);
    NestedOpenA(a, b, x);
    assert AwLoop(ts[..1]) == Ok(OpenedOne(a));
    AwLoopStep(ts, 1);
    NestedOpenB(a, b, x);
    assert AwLoop(ts[..2]) == Ok(OpenedTwo(a, b));
    AwLoopStep(ts, 2);
    NestedText(a, b, x);
  }

  /** The loop as written over `<a><b>x</b>`. */
  lemma NestedClosedInner(a: string, b: string, x: string)
    ensures AwLoop(NestedTokens(a, b, x)[..4]) == Ok(ClosedInner(a, b, x))
  {
    var ts := NestedTokens(a, b, x);
    NestedPrefix(a, b, x);
    AwLoopStep(ts, 3);
    NestedInner(a, b, x);
  }

  /** The loop as written over `<a><b>x</b></a>`: b lists x, which points at a. */
  lemma NestedLoop(a: string, b: string, x: string)
    ensures var r := AwLoop(NestedTokens(a, b, x));
      r.Ok? && 2 in r.value.b.doc && 3 in r.value.b.doc && r.value.b.doc[2].children == [3] && r.value.b.doc[3].parent == Some(1)
  {
    var ts := NestedTokens(a, b, x);
    NestedClosedInner(a, b, x);
    assert AwLoop(ts) == AwStep(ClosedInner(a, b, x), ts[4]);
    NestedOuter(a, b, x);
  }

  /** A node listed by p whose link points elsewhere breaks the tree's shape. */
  lemma StaleNotValid(t: Doc, p: NodeId, c: NodeId)
    requires p in t && c in t && c in t[p].children && t[c].parent != Some(p)
    ensures !Valid(t)
  {
    var i :| 0 <= i < |t[p].children| && t[p].children[i] == c;
  }

  /**
   * buildTree as written on `<a><b>x</b></a>`: it succeeds, and in its tree
   * b lists x while x points at a, so its children do not all point back at
   * the node that lists them; the corrected tree of LegacyBuild.LegacyParse
   * on the same tokens does.
   */
  lemma NestedStale(a: string, b: string, x: string)
    ensures AwParse(NestedTokens(a, b, x)).Ok?
    ensures var t := AwParse(NestedTokens(a, b, x)).value.doc;
      2 in t && 3 in t && t[2].children == [3] && t[3].parent == Some(1) && !Valid(t)
    ensures LegacyParse(NestedTokens(a, b, x)).Ok? && Valid(LegacyParse(NestedTokens(a, b, x)).value.doc)
  {
    var ts := NestedTokens(a, b, x);
    NestedLoop(a, b, x);
    var t := AwParse(ts).value.doc;
    StaleNotValid(t, 2, 3);
    AwParseIs(ts);
  }
}
