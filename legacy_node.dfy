/**
 * The older generation's Node: one class for the root, tags, texts and
 * comments, whose children sit in a NodeCollection (null for texts and
 * comments). Its tree edits, walks and getHtml over the arena; the
 * attribute parsing the constructor runs is in LegacyAttrs. The root's
 * null parent is the arena's top marker: a node is without a parent when
 * IsTop holds.
 */
module LegacyNode {
  import opened Prelude
  import opened Arena
  import opened Elements
  import opened Dom
  import opened Edit
  import opened TreeOps
  import opened Query
  import opened Spine
  import opened LegacyAttrs
  import Build
  import Replace

  /** A document of the older generation: linked, and without the newer CollectionNode. */
  ghost predicate LegacyDoc(s: Doc) {
    DocValid(s) && NoCollections(s)
  }

  /** In an older document exactly the root and the tags hold children. */
  lemma LeafChildless(s: Doc, n: NodeId)
    requires LegacyDoc(s) && n in s && !HasList(s[n].kind)
    ensures s[n].children == []
  {
  }

  const NoChildren := "this->children IS NULL"
  const NotATag := "SET CLOSING ON NON-TAG NODE!"

  // --------------------------------------------------------------- addChild

  /**
   * addChild: n goes at the end of p's children and points at p. Texts and
   * comments hold no collection (an exception). n is not taken out of a
   * list it is already in.
   */
  function AddChild(s: Doc, p: NodeId, n: NodeId): (r: Result<Doc>)
    requires p in s && n in s
    ensures r.Err? <==> !HasList(s[p].kind)
    ensures r.Ok? ==> r.value.Keys == s.Keys
  {
    if !HasList(s[p].kind) then Err(NoChildren)
    else Ok(SetParent(SetChildren(s, p, s[p].children + [n]), n, Some(p)))
  }

  /**
   * On a node without a parent that is not an ancestor of p, addChild is the
   * link of n at the end of p's list, and the document stays valid.
   */
  lemma AddChildIsLink(s: Doc, p: NodeId, n: NodeId)
    requires p in s && n in s && n != p && HasList(s[p].kind)
    ensures AddChild(s, p, n) == Ok(Link(s, p, [n], |s[p].children|))
  {
    var i := |s[p].children|;
    assert s[p].children[..i] + [n] + s[p].children[i..] == s[p].children + [n];
    var t := AddChild(s, p, n).value;
    var u := Link(s, p, [n], i);
    forall m | m in t
      ensures t[m] == u[m]
    {
      if m == n {
        assert u[m] == s[m].(parent := Some(p));
      } else if m == p {
        assert u[m] == s[m].(children := s[p].children + [n]);
      } else {
        assert u[m] == s[m];
      }
    }
    assert t == u;
  }

  lemma AddChildLinks(s: Doc, p: NodeId, n: NodeId)
    requires LegacyDoc(s) && p in s && HasList(s[p].kind)
    requires n in s && s[n].parent.None? && !AncOrSelf(s, n, p)
    ensures AddChild(s, p, n) == Ok(Link(s, p, [n], |s[p].children|))
    ensures LegacyDoc(AddChild(s, p, n).value)
    ensures AddChild(s, p, n).value[p].children == s[p].children + [n]
    ensures AddChild(s, p, n).value[n].parent == Some(p)
  {
    var i := |s[p].children|;
    assert LinkReady(s, p, [n], i);
    LinkShape(s, p, [n], i);
    LinkDocValid(s, p, [n], i);
    AddChildIsLink(s, p, n);
    assert s[p].children[..i] + [n] + s[p].children[i..] == s[p].children + [n];
  }

  /**
   * A node already listed by another parent stays in that list: addChild
   * leaves it listed twice and its old parent's link broken.
   */
  lemma AddChildKeepsOldList(s: Doc, p: NodeId, q: NodeId, n: NodeId)
    requires p in s && q in s && n in s && HasList(s[p].kind)
    requires q != p && q != n && n in s[q].children
    ensures AddChild(s, p, n).value[q].children == s[q].children
    ensures AddChild(s, p, n).value[n].parent == Some(p)
    ensures !Valid(AddChild(s, p, n).value)
  {
    var t := AddChild(s, p, n).value;
    var i :| 0 <= i < |t[q].children| && t[q].children[i] == n;
    assert !ChildLink(t, q, t[q].children[i]);
  }

  // ------------------------------------------------------------------ each

  /**
   * NodeCollection.each as written, at node n with d the level it has
   * already decremented: n is visited; when d is not 0 and n holds
   * children, Node.each hands d - 1 to the children's each, which
   * decrements it once more.
   */
  function EachAt(s: Doc, n: NodeId, d: int): (r: seq<NodeId>)
    requires Valid(s) && n in s
    ensures |r| > 0 && r[0] == n
    ensures forall m :: m in r ==> m in s
    decreases Bound(s) - Depth(s, n), 1, 0
  {
    [n] + (if d != 0 && HasList(s[n].kind) then EachBelow(s, n, s[n].children, d - 2) else [])
  }

  function EachBelow(s: Doc, p: NodeId, cs: seq<NodeId>, d: int): (r: seq<NodeId>)
    requires Valid(s) && p in s && ChildrenOf(s, p, cs)
    ensures forall m :: m in r ==> m in s
    decreases Bound(s) - Depth(s, p), 0, |cs|
  {
    if |cs| == 0 then []
    else
      ChildDepth(s, p, cs[0]);
      EachAt(s, cs[0], d) + EachBelow(s, p, cs[1..], d)
  }

  function EachEach(s: Doc, ns: seq<NodeId>, d: int): (r: seq<NodeId>)
    requires Valid(s) && forall n :: n in ns ==> n in s
    ensures forall m :: m in r ==> m in s
  {
    if |ns| == 0 then [] else EachAt(s, ns[0], d) + EachEach(s, ns[1..], d)
  }

  /** The nodes NodeCollection.each applies its function to, in order, as written. */
  function EachAsWritten(s: Doc, ns: seq<NodeId>, levels: int): (r: seq<NodeId>)
    requires Valid(s) && forall n :: n in ns ==> n in s
    ensures forall m :: m in r ==> m in s
  {
    EachEach(s, ns, levels - 1)
  }

  lemma {:induction false} EachAtAll(s: Doc, n: NodeId, d: int)
    requires LegacyDoc(s) && n in s && d < 0
    ensures EachAt(s, n, d) == Preorder(s, n)
    decreases Bound(s) - Depth(s, n), 1, 0
  {
    EachBelowAll(s, n, s[n].children, d - 2);
    if !HasList(s[n].kind) {
      assert PreorderBelow(s, n, s[n].children) == [];
    }
  }

  lemma {:induction false} EachBelowAll(s: Doc, p: NodeId, cs: seq<NodeId>, d: int)
    requires LegacyDoc(s) && p in s && ChildrenOf(s, p, cs) && d < 0
    ensures EachBelow(s, p, cs, d) == PreorderBelow(s, p, cs)
    decreases Bound(s) - Depth(s, p), 0, |cs|
  {
    if |cs| > 0 {
      ChildDepth(s, p, cs[0]);
      EachAtAll(s, cs[0], d);
      EachBelowAll(s, p, cs[1..], d);
    }
  }

  /** With a level not above 0, each visits every node of the listed subtrees, in document order. */
  lemma {:induction false} EachAsWrittenAll(s: Doc, ns: seq<NodeId>, levels: int)
    requires LegacyDoc(s) && (forall n :: n in ns ==> n in s) && levels <= 0
    ensures EachAsWritten(s, ns, levels) == Subtrees(s, ns)
  {
    if |ns| > 0 {
      EachAtAll(s, ns[0], levels - 1);
      EachAsWrittenAll(s, ns[1..], levels);
    }
  }

  function Any(e: Elem): bool {
    true
  }

  lemma {:induction false} KeepAny(s: Doc, ns: seq<NodeId>)
    requires forall n :: n in ns ==> n in s
    ensures Keep(s, ns, Any) == ns
  {
    if |ns| > 0 {
      KeepAny(s, ns[1..]);
    }
  }

  /**
   * find descends into the root and the tags; in an older document those are
   * exactly the nodes that hold children, so this is find's corrected
   * descent.
   */
  lemma {:induction false} FindAtHasList(s: Doc, n: NodeId, test: Elem -> bool, d: int)
    requires Valid(s) && NoCollections(s) && n in s
    ensures FindAt(s, n, test, HasList, d) == FindAt(s, n, test, IsContainer, d)
    decreases Bound(s) - Depth(s, n), 1, 0
  {
    FindBelowHasList(s, n, s[n].children, test, d - 1);
  }

  lemma {:induction false} FindBelowHasList(s: Doc, p: NodeId, cs: seq<NodeId>, test: Elem -> bool, d: int)
    requires Valid(s) && NoCollections(s) && p in s && ChildrenOf(s, p, cs)
    ensures FindBelow(s, p, cs, test, HasList, d) == FindBelow(s, p, cs, test, IsContainer, d)
    decreases Bound(s) - Depth(s, p), 0, |cs|
  {
    if |cs| > 0 {
      ChildDepth(s, p, cs[0]);
      FindAtHasList(s, cs[0], test, d);
      FindBelowHasList(s, p, cs[1..], test, d);
    }
  }

  lemma {:induction false} FindListHasList(s: Doc, ns: seq<NodeId>, test: Elem -> bool, depth: int)
    requires Valid(s) && NoCollections(s) && forall n :: n in ns ==> n in s
    ensures FindList(s, ns, test, HasList, depth) == FindList(s, ns, test, IsContainer, depth)
  {
    if |ns| > 0 {
      FindAtHasList(s, ns[0], test, depth - 1);
      FindListHasList(s, ns[1..], test, depth);
    }
  }

  /**
   * NodeCollection.each with its level decremented once per level, as find
   * does: the nodes find returns for a test that always passes.
   */
  function Each(s: Doc, ns: seq<NodeId>, levels: int): (r: seq<NodeId>)
    requires Valid(s) && forall n :: n in ns ==> n in s
    ensures levels == 1 ==> r == ns
    ensures LegacyDoc(s) && levels <= 0 ==> r == Subtrees(s, ns)
  {
    assert levels == 1 ==> FindList(s, ns, Any, HasList, levels) == ns by {
      FindListShallow(s, ns, Any, HasList);
      KeepAny(s, ns);
    }
    assert LegacyDoc(s) && levels <= 0 ==> FindList(s, ns, Any, HasList, levels) == Subtrees(s, ns) by {
      if LegacyDoc(s) && levels <= 0 {
        FindListHasList(s, ns, Any, levels);
        FindListAll(s, ns, Any, levels);
        KeepAny(s, Subtrees(s, ns));
      }
    }
    FindList(s, ns, Any, HasList, levels)
  }

  /**
   * each as written on a chain a, b, c with level 2: the second decrement
   * makes the level negative below a, so each reaches the grandchild c,
   * which the corrected each (and find) at level 2 does not.
   */
  lemma EachTwoLevels(s: Doc, a: NodeId, b: NodeId, c: NodeId)
    requires Valid(s) && a in s && b in s && c in s
    requires HasList(s[a].kind) && HasList(s[b].kind)
    requires s[a].children == [b] && s[b].children == [c]
    ensures c in EachAsWritten(s, [a], 2)
    ensures c !in Each(s, [a], 2)
  {
    ChildDepth(s, a, b);
    ChildDepth(s, b, c);
    assert EachBelow(s, b, [c], -3) == EachAt(s, c, -3) + EachBelow(s, b, [], -3);
    assert EachAt(s, b, -1) == [b] + EachBelow(s, b, [c], -3);
    assert EachBelow(s, a, [b], -1) == EachAt(s, b, -1) + EachBelow(s, a, [], -1);
    assert [a][1..] == [];
    assert EachAsWritten(s, [a], 2) == EachAt(s, a, 1) + EachEach(s, [], 1);
    assert FindBelow(s, a, [b], Any, HasList, 0) == FindAt(s, b, Any, HasList, 0) + FindBelow(s, a, [], Any, HasList, 0);
    assert FindAt(s, a, Any, HasList, 1) == [a] + FindBelow(s, a, [b], Any, HasList, 0);
    assert Each(s, [a], 2) == FindEach(s, [a], Any, HasList, 1);
    assert FindEach(s, [a], Any, HasList, 1) == FindAt(s, a, Any, HasList, 1) + FindEach(s, [], Any, HasList, 1);
    assert c != a && c != b by {
      assert ChildLink(s, a, b) && ChildLink(s, b, c);
      ChildNotAncestor(s, b, c);
      ChildNotAncestor(s, a, b);
    }
  }

  // ------------------------------------------------------------ addChildren

  /**
   * addChildren as written: each with level -1 points every node it visits
   * at p, and the listed nodes go at the end of p's children.
   */
  function AddChildrenAsWritten(s: Doc, p: NodeId, ns: seq<NodeId>): (r: Result<Doc>)
    requires Valid(s) && p in s && forall n :: n in ns ==> n in s
    ensures r.Err? <==> !HasList(s[p].kind)
    ensures r.Ok? ==> r.value.Keys == s.Keys
  {
    if !HasList(s[p].kind) then Err(NoChildren)
    else
      var u := SetParents(s, EachAsWritten(s, ns, -1), Some(p));
      Ok(SetChildren(u, p, u[p].children + ns))
  }

  /**
   * As written, the children of a listed node a are pointed at p as well,
   * while a still lists them: the links no longer agree.
   */
  lemma AddChildrenReparents(s: Doc, p: NodeId, ns: seq<NodeId>, a: NodeId, x: NodeId)
    requires LegacyDoc(s) && p in s && HasList(s[p].kind) && forall n :: n in ns ==> n in s
    requires a in ns && a != p && x in s[a].children
    ensures AddChildrenAsWritten(s, p, ns).value[x].parent == Some(p)
    ensures x in AddChildrenAsWritten(s, p, ns).value[a].children
    ensures !Valid(AddChildrenAsWritten(s, p, ns).value)
  {
    EachAsWrittenAll(s, ns, -1);
    var i :| 0 <= i < |ns| && ns[i] == a;
    SubtreesHas(s, ns, i);
    ChildDepth(s, a, x);
    assert x in Preorder(s, a) by {
      var j :| 0 <= j < |s[a].children| && s[a].children[j] == x;
      PreorderBelowMember(s, a, s[a].children, x);
      assert x in Preorder(s, s[a].children[j]);
    }
    ReparentBreaks(s, p, ns, EachAsWritten(s, ns, -1), a, x);
  }

  /** Pointing a listed child x at p while a != p still lists it breaks the parent links. */
  lemma ReparentBreaks<K>(s: Store<K>, p: NodeId, ns: seq<NodeId>, each: seq<NodeId>, a: NodeId, x: NodeId)
    requires p in s && a in s && a != p && x in s[a].children && x in each
    requires forall n :: n in each ==> n in s
    ensures var u := SetParents(s, each, Some(p)); var t := SetChildren(u, p, u[p].children + ns);
      t[x].parent == Some(p) && x in t[a].children && !Valid(t)
  {
    var u := SetParents(s, each, Some(p));
    var t := SetChildren(u, p, u[p].children + ns);
    assert t[a].children == s[a].children;
    var j :| 0 <= j < |t[a].children| && t[a].children[j] == x;
    assert !ChildLink(t, a, t[a].children[j]);
  }

  lemma {:induction false} SubtreesHas(s: Doc, ns: seq<NodeId>, i: nat)
    requires Valid(s) && (forall n :: n in ns ==> n in s) && i < |ns|
    ensures forall m :: m in Preorder(s, ns[i]) ==> m in Subtrees(s, ns)
  {
    if i > 0 {
      SubtreesHas(s, ns[1..], i - 1);
    }
  }

  /** addChildren as intended: only the listed nodes are pointed at p; the link of ns at the end of p's list. */
  function AddChildren(s: Doc, p: NodeId, ns: seq<NodeId>): (r: Result<Doc>)
    requires p in s && forall n :: n in ns ==> n in s
    ensures r.Err? <==> !HasList(s[p].kind)
    ensures r.Ok? ==> r.value.Keys == s.Keys
  {
    if !HasList(s[p].kind) then Err(NoChildren)
    else Ok(Link(s, p, ns, |s[p].children|))
  }

  /** Corrected addChildren on parentless nodes keeps the document valid and appends them. */
  lemma AddChildrenValid(s: Doc, p: NodeId, ns: seq<NodeId>)
    requires LegacyDoc(s) && p in s && HasList(s[p].kind) && LinkReady(s, p, ns, |s[p].children|)
    ensures AddChildren(s, p, ns).Ok?
    ensures LegacyDoc(AddChildren(s, p, ns).value)
    ensures AddChildren(s, p, ns).value[p].children == s[p].children + ns
    ensures forall n :: n in ns ==> AddChildren(s, p, ns).value[n].parent == Some(p)
  {
    var i := |s[p].children|;
    LinkShape(s, p, ns, i);
    LinkDocValid(s, p, ns, i);
    assert s[p].children[..i] == s[p].children && s[p].children[i..] == [];
  }

  /** When the listed nodes hold no children, addChildren as written does what was intended. */
  lemma AddChildrenLeaves(s: Doc, p: NodeId, ns: seq<NodeId>)
    requires LegacyDoc(s) && p in s && forall n :: n in ns ==> n in s && s[n].children == []
    ensures AddChildrenAsWritten(s, p, ns) == AddChildren(s, p, ns)
  {
    assert EachAsWritten(s, ns, -1) == ns by {
      EachAsWrittenAll(s, ns, -1);
      LeafSubtrees(s, ns);
    }
    if HasList(s[p].kind) {
      AddChildrenSameList(s, p, ns);
    }
  }

  /** When each visits exactly the listed nodes, both forms of addChildren build the same list. */
  lemma AddChildrenSameList(s: Doc, p: NodeId, ns: seq<NodeId>)
    requires Valid(s) && p in s && HasList(s[p].kind) && forall n :: n in ns ==> n in s
    requires EachAsWritten(s, ns, -1) == ns
    ensures AddChildrenAsWritten(s, p, ns) == AddChildren(s, p, ns)
  {
    AppendIsLink(s, p, ns, Some(p));
  }

  /** Pointing ns at q and appending them to p's list is Link at the end of that list. */
  lemma AppendIsLink<K>(s: Store<K>, p: NodeId, ns: seq<NodeId>, q: Option<NodeId>)
    requires p in s && q == Some(p) && forall n :: n in ns ==> n in s
    ensures var u := SetParents(s, ns, q);
      SetChildren(u, p, u[p].children + ns) == Link(s, p, ns, |s[p].children|)
  {
    var cs := s[p].children;
    assert SetParents(s, ns, q)[p].children == cs;
    assert cs[..|cs|] + ns + cs[|cs|..] == cs + ns;
  }

  lemma {:induction false} LeafSubtrees(s: Doc, ns: seq<NodeId>)
    requires Valid(s) && forall n :: n in ns ==> n in s && s[n].children == []
    ensures Subtrees(s, ns) == ns
  {
    if |ns| > 0 {
      LeafSubtrees(s, ns[1..]);
      assert Preorder(s, ns[0]) == [ns[0]] + PreorderBelow(s, ns[0], []);
    }
  }

  // ---------------------------------------------------------- clearChildren

  /** clearChildren: the list is emptied; the former children keep pointing at n. */
  function ClearChildren(s: Doc, n: NodeId): (r: Result<Doc>)
    requires n in s
    ensures r.Err? <==> !HasList(s[n].kind)
    ensures r.Ok? ==> r.value.Keys == s.Keys
  {
    if !HasList(s[n].kind) then Err(NoChildren) else Ok(SetChildren(s, n, []))
  }

  lemma RelinkSame(s: Doc, n: NodeId)
    requires n in s && HasList(s[n].kind) && n !in s[n].children
    requires forall c :: c in s[n].children ==> c in s && s[c].parent == Some(n)
    ensures AddChildren(SetChildren(s, n, []), n, s[n].children) == Ok(s)
  {
    var cs := s[n].children;
    var u := SetChildren(s, n, []);
    var t := Link(u, n, cs, 0);
    assert u[n].children[..0] + cs + u[n].children[0..] == cs;
    forall m | m in s
      ensures t[m] == s[m]
    {
      if m == n {
        assert t[m] == s[m].(children := cs);
      } else if m in cs {
        assert t[m] == s[m].(parent := Some(n));
      } else {
        assert t[m] == s[m];
      }
    }
    assert t == s;
  }

  /** Clearing a list and adding the same nodes back with the corrected addChildren gives the tree back. */
  lemma ClearThenAdd(s: Doc, n: NodeId)
    requires LegacyDoc(s) && n in s && HasList(s[n].kind)
    ensures ClearChildren(s, n).Ok?
    ensures AddChildren(ClearChildren(s, n).value, n, s[n].children) == Ok(s)
  {
    var cs := s[n].children;
    forall c | c in cs
      ensures c in s && s[c].parent == Some(n)
    {
      ListedByParent(s, n, c);
    }
    forall j | 0 <= j < |cs|
      ensures cs[j] != n
    {
      assert ChildLink(s, n, cs[j]);
    }
    RelinkSame(s, n);
  }

  // ------------------------------------------------------- tag and closing

  /** setTag: changes the name of a tag; on any other node it does nothing. */
  function SetTag(s: Doc, n: NodeId, tag: string): (t: Doc)
    requires n in s
    ensures SameShape(s, t)
    ensures s[n].kind.TagE? ==> t[n].kind == TagE(s[n].kind.data.(tag := tag))
    ensures !s[n].kind.TagE? ==> t == s
    ensures forall m :: m in s && m != n ==> t[m] == s[m]
  {
    if s[n].kind.TagE? then s[n := s[n].(kind := TagE(s[n].kind.data.(tag := tag)))] else s
  }

  /** setClosing: changes the closing of a tag; on any other node, including the root, an exception. */
  function SetClosing(s: Doc, n: NodeId, closing: Closing): (r: Result<Doc>)
    requires n in s
    ensures r.Err? <==> !s[n].kind.TagE?
    ensures r.Ok? ==> SameShape(s, r.value) && r.value[n].kind == TagE(s[n].kind.data.(closing := closing))
    ensures r.Ok? ==> forall m :: m in s && m != n ==> r.value[m] == s[m]
  {
    if s[n].kind.TagE? then Ok(s[n := s[n].(kind := TagE(s[n].kind.data.(closing := closing)))])
    else Err(NotATag)
  }

  /** Renaming a tag keeps an older document valid, and every subtree's preorder. */
  lemma SetTagValid(s: Doc, n: NodeId, tag: string)
    requires LegacyDoc(s) && n in s
    ensures LegacyDoc(SetTag(s, n, tag))
    ensures forall x :: x in s ==> Preorder(SetTag(s, n, tag), x) == Preorder(s, x)
  {
    Build.SameShapeDocValid(s, SetTag(s, n, tag));
  }

  /** Re-closing a tag keeps an older document valid, and every subtree's preorder. */
  lemma SetClosingValid(s: Doc, n: NodeId, closing: Closing)
    requires LegacyDoc(s) && n in s && s[n].kind.TagE?
    ensures LegacyDoc(SetClosing(s, n, closing).value)
    ensures forall x :: x in s ==> Preorder(SetClosing(s, n, closing).value, x) == Preorder(s, x)
  {
    Build.SameShapeDocValid(s, SetClosing(s, n, closing).value);
  }

  // ------------------------------------------------------------ findParent

  /** Every node above n, nearest first, up to the node without a parent. */
  ghost function Chain(s: Doc, n: NodeId): (r: seq<NodeId>)
    requires Valid(s) && n in s
    ensures forall a :: a in r ==> a in s
    decreases Depth(s, n)
  {
    if IsTop(s, n) then []
    else
      ParentDepth(s, n);
      [s[n].parent.value] + Chain(s, s[n].parent.value)
  }

  /**
   * findParent: null when n has no parent or the level is 0; the parent if
   * the test passes; otherwise the parent's findParent with one level less.
   */
  function FindParent(s: Doc, n: NodeId, test: Elem -> bool, levels: int): (r: Option<NodeId>)
    requires Valid(s) && n in s
    ensures r.Some? ==> r.value in s && test(s[r.value].kind)
    decreases Depth(s, n)
  {
    if IsTop(s, n) || levels == 0 then None
    else
      var p := s[n].parent.value;
      if test(s[p].kind) then Some(p)
      else
        ParentDepth(s, n);
        FindParent(s, p, test, levels - 1)
  }

  /**
   * findParent returns the first node that passes among the first levels
   * nodes above n (all of them for a negative level), or null.
   */
  lemma {:induction false} FindParentFirst(s: Doc, n: NodeId, test: Elem -> bool, levels: int)
    requires Valid(s) && n in s
    ensures FindParent(s, n, test, levels) == FirstMatch(s, Limit(Chain(s, n), levels), test)
    decreases Depth(s, n)
  {
    var A := Chain(s, n);
    if !IsTop(s, n) {
      var p := s[n].parent.value;
      ParentDepth(s, n);
      assert A == [p] + Chain(s, p);
      if levels != 0 && !test(s[p].kind) {
        FindParentFirst(s, p, test, levels - 1);
        assert Limit(A, levels)[1..] == Limit(Chain(s, p), levels - 1);
        assert Limit(A, levels)[0] == p;
      }
    }
    if levels == 0 {
      assert Limit(A, levels) == [];
    }
  }

  // ---------------------------------------------------------------- detach

  /**
   * detach: the parent's collection drops the entries with n's uid, by
   * NodeCollection.remove's loop over a copy; then n forgets its parent.
   * Without a parent, or under a node without a list, it is a fatal error.
   */
  function Detach(s: Doc, n: NodeId): (t: Doc)
    requires n in s && !IsTop(s, n) && s[n].parent.value in s && HasList(s[s[n].parent.value].kind)
    ensures t.Keys == s.Keys && t[n].parent.None?
  {
    var p := s[n].parent.value;
    var cs := s[p].children;
    SetParent(SetChildren(s, p, CollRemoveAsWritten(cs, cs, 0, n)), n, None)
  }

  /** A node with a parent in an older document sits in the list of a tag or the root. */
  lemma ParentHasList(s: Doc, n: NodeId)
    requires LegacyDoc(s) && n in s && !IsTop(s, n)
    ensures s[n].parent.value in s && n in s[s[n].parent.value].children
    ensures HasList(s[s[n].parent.value].kind)
  {
  }

  /** On an older document detach is the unlink of n: the document stays valid. */
  lemma DetachIsUnlink(s: Doc, n: NodeId)
    requires LegacyDoc(s) && n in s && !IsTop(s, n)
    ensures s[n].parent.value in s && HasList(s[s[n].parent.value].kind)
    ensures Detach(s, n) == Unlink(s, n)
    ensures LegacyDoc(Detach(s, n))
  {
    ParentHasList(s, n);
    var cs := s[s[n].parent.value].children;
    CollRemoveDistinct(cs, n);
    WithoutRemoveFirst(cs, n);
    UnlinkDocValid(s, n);
  }

  // ----------------------------------------------------------- replaceWith

  /**
   * NodeCollection.replaceNodeWith with a single node: the loop over a copy
   * assigns the new node at every index where the copy holds the old one.
   */
  function AssignWalk(live: seq<NodeId>, copy: seq<NodeId>, i: nat, x: NodeId, y: NodeId): (r: seq<NodeId>)
    requires |live| == |copy| && i <= |copy|
    ensures |r| == |live|
    ensures forall j :: 0 <= j < |r| ==> r[j] == if i <= j && copy[j] == x then y else live[j]
    decreases |copy| - i
  {
    if i == |copy| then live
    else AssignWalk(if copy[i] == x then live[i := y] else live, copy, i + 1, x, y)
  }

  /**
   * replaceWith as written: m takes n's place in the parent's list, then n
   * is detached. m is never pointed at the parent.
   */
  function ReplaceWithAsWritten(s: Doc, n: NodeId, m: NodeId): (t: Doc)
    requires n in s && m in s && !IsTop(s, n) && s[n].parent.value in s && HasList(s[s[n].parent.value].kind)
    ensures t.Keys == s.Keys && t[n].parent.None?
  {
    var p := s[n].parent.value;
    var cs := s[p].children;
    Detach(SetChildren(s, p, AssignWalk(cs, cs, 0, n, m)), n)
  }

  /** Detaching a node its parent no longer lists only clears its parent. */
  lemma DetachAbsent(t: Doc, n: NodeId)
    requires n in t && !IsTop(t, n) && t[n].parent.value in t && HasList(t[t[n].parent.value].kind)
    requires forall j :: 0 <= j < |t[t[n].parent.value].children| ==> t[t[n].parent.value].children[j] != n
    ensures Detach(t, n) == SetParent(t, n, None)
  {
    var p := t[n].parent.value;
    var cs := t[p].children;
    CollRemoveSkip(cs, cs, 0, |cs|, n);
    assert SetChildren(t, p, cs) == t;
  }

  /** On a list without repeats the walk assigns m at n's one index. */
  lemma AssignWalkAt(cs: seq<NodeId>, n: NodeId, m: NodeId)
    requires NoDup(cs) && n in cs && m != n
    ensures var r := AssignWalk(cs, cs, 0, n, m);
      && r == SpliceAt(cs, FirstIndex(cs, n), 1, [m])
      && forall j :: 0 <= j < |r| ==> r[j] != n
  {
    var k := FirstIndex(cs, n);
    var r := AssignWalk(cs, cs, 0, n, m);
    assert r == cs[..k] + [m] + cs[k + 1..];
  }

  /** Relisting without pointing m at p is linking m then restoring m's old parent. */
  lemma StaleShape(s: Doc, p: NodeId, n: NodeId, m: NodeId, l: seq<NodeId>)
    requires p in s && n in s && m in s && m != n
    ensures var t := SetParent(SetParents(SetChildren(s, p, l), [m], Some(p)), n, None);
      SetParent(SetChildren(s, p, l), n, None) == t[m := t[m].(parent := s[m].parent)]
  {
    var a := SetParent(SetChildren(s, p, l), n, None);
    var t := SetParent(SetParents(SetChildren(s, p, l), [m], Some(p)), n, None);
    var b := t[m := t[m].(parent := s[m].parent)];
    forall x | x in a
      ensures a[x] == b[x]
    {
      if x == m {
      } else if x == n {
      } else {
        assert x !in [m];
      }
    }
    assert a == b;
  }

  /**
   * replaceWith as written differs from the newer replaceWith (which keeps
   * the links) only in m's parent, which it leaves as it was: a fresh
   * replacement is listed by the parent without pointing at it.
   */
  lemma ReplaceWithStale(s: Doc, n: NodeId, m: NodeId)
    requires LegacyDoc(s) && n in s && !IsTop(s, n) && m in s && m != n
    ensures s[n].parent.value in s && HasList(s[s[n].parent.value].kind)
    ensures var t := Replace.ReplaceWith(s, n, [m]);
      ReplaceWithAsWritten(s, n, m) == t[m := t[m].(parent := s[m].parent)]
    ensures s[m].parent.None? ==> !Valid(ReplaceWithAsWritten(s, n, m))
  {
    ParentHasList(s, n);
    var p := s[n].parent.value;
    var cs := s[p].children;
    var k := FirstIndex(cs, n);
    AssignWalkAt(cs, n, m);
    var l := AssignWalk(cs, cs, 0, n, m);
    DetachAbsent(SetChildren(s, p, l), n);
    Replace.ReplaceWithUnfold(s, n, [m]);
    StaleShape(s, p, n, m, l);
    if s[m].parent.None? {
      var a := ReplaceWithAsWritten(s, n, m);
      assert a[p].children[k] == m;
      assert !ChildLink(a, p, a[p].children[k]);
    }
  }

  /**
   * replaceWithChildren as written: the parent's collection splices n's
   * collection into n's place, by replaceNodeWith's loop, then n is
   * detached. The children keep pointing at n, which keeps its list.
   * Texts and comments, whose collection is null, are not covered.
   */
  function ReplaceWithChildrenAsWritten(s: Doc, n: NodeId): (t: Doc)
    requires n in s && HasList(s[n].kind) && !IsTop(s, n)
    requires s[n].parent.value in s && HasList(s[s[n].parent.value].kind)
    ensures t.Keys == s.Keys && t[n].parent.None?
  {
    var p := s[n].parent.value;
    var cs := s[p].children;
    Detach(SetChildren(s, p, Replace.ReplaceWalk(cs, cs, 0, n, s[n].children).0), n)
  }

  /** n's children are not n, and neither are its siblings. */
  lemma SplicedWithoutN(s: Doc, n: NodeId)
    requires Valid(s) && n in s && !IsTop(s, n) && n in s[s[n].parent.value].children
    ensures var cs := s[s[n].parent.value].children;
      var r := SpliceAt(cs, FirstIndex(cs, n), 1, s[n].children);
      forall j :: 0 <= j < |r| ==> r[j] != n
  {
    var cs := s[s[n].parent.value].children;
    var kids := s[n].children;
    var k := FirstIndex(cs, n);
    var r := SpliceAt(cs, k, 1, kids);
    assert r == cs[..k] + kids + cs[k + 1..];
    forall j | 0 <= j < |r|
      ensures r[j] != n
    {
      if j < k {
      } else if j < k + |kids| {
        assert r[j] == kids[j - k];
        assert ChildLink(s, n, kids[j - k]);
      } else {
        assert r[j] == cs[j - |kids| + 1];
      }
    }
  }

  /** As written, replaceWithChildren relists the parent and clears n's parent, nothing more. */
  lemma ChildrenAsWrittenShape(s: Doc, n: NodeId)
    requires Valid(s) && n in s && !IsTop(s, n) && HasList(s[n].kind)
    requires s[n].parent.value in s && HasList(s[s[n].parent.value].kind)
    requires n in s[s[n].parent.value].children && NoDup(s[s[n].parent.value].children)
    ensures var p := s[n].parent.value;
      var cs := s[p].children;
      ReplaceWithChildrenAsWritten(s, n)
        == SetParent(SetChildren(s, p, SpliceAt(cs, FirstIndex(cs, n), 1, s[n].children)), n, None)
  {
    var p := s[n].parent.value;
    var cs := s[p].children;
    var kids := s[n].children;
    var k := FirstIndex(cs, n);
    Replace.ReplaceWalkAt(cs, cs, 0, k, n, kids);
    SplicedWithoutN(s, n);
    DetachAbsent(SetChildren(s, p, SpliceAt(cs, k, 1, kids)), n);
  }

  /**
   * As written, n's children take its place in the parent's list, as in
   * the newer replaceWithChildren (which keeps the links), but n keeps its
   * children and they keep pointing at n: with any child the links
   * disagree.
   */
  lemma ReplaceWithChildrenStale(s: Doc, n: NodeId)
    requires LegacyDoc(s) && n in s && !IsTop(s, n) && HasList(s[n].kind)
    ensures s[n].parent.value in s && HasList(s[s[n].parent.value].kind)
    ensures var p := s[n].parent.value;
      var cs := s[p].children;
      var k := FirstIndex(cs, n);
      var a := ReplaceWithChildrenAsWritten(s, n);
      && k < |cs|
      && a[p].children == cs[..k] + s[n].children + cs[k + 1..]
      && a[n] == s[n].(parent := None)
      && (forall x :: x in s[n].children ==> a[x].parent == Some(n))
      && (s[n].children != [] ==> !Valid(a))
  {
    ParentHasList(s, n);
    ChildrenAsWrittenShape(s, n);
    var p := s[n].parent.value;
    var cs := s[p].children;
    var kids := s[n].children;
    var k := FirstIndex(cs, n);
    var l := SpliceAt(cs, k, 1, kids);
    var a := SetParent(SetChildren(s, p, l), n, None);
    forall x | x in kids
      ensures a[x].parent == Some(n)
    {
      var j :| 0 <= j < |kids| && kids[j] == x;
      assert ChildLink(s, n, kids[j]);
    }
    if kids != [] {
      assert l[k] == kids[0];
      assert kids[0] in kids;
      assert !ChildLink(a, p, a[p].children[k]);
    }
  }

  // ------------------------------------------------------------------ find

  lemma ChildrenIn(s: Doc, n: NodeId)
    requires Valid(s) && n in s
    ensures forall c :: c in s[n].children ==> c in s
  {
    forall c | c in s[n].children
      ensures c in s
    {
      var i :| 0 <= i < |s[n].children| && s[n].children[i] == c;
      assert ChildLink(s, n, s[n].children[i]);
    }
  }

  /** Node.find: the search of its collection of children; null for texts and comments. */
  function NodeFind(s: Doc, n: NodeId, test: Elem -> bool, levels: int): (r: Option<seq<NodeId>>)
    requires Valid(s) && n in s
    ensures r.None? <==> !HasList(s[n].kind)
    ensures r.Some? ==> forall m :: m in r.value ==> m in s && test(s[m].kind)
  {
    ChildrenIn(s, n);
    if HasList(s[n].kind) then Some(FindList(s, s[n].children, test, HasList, levels)) else None
  }

  lemma {:induction false} SubtreesBelow(s: Doc, p: NodeId, cs: seq<NodeId>)
    requires Valid(s) && p in s && ChildrenOf(s, p, cs)
    ensures Subtrees(s, cs) == PreorderBelow(s, p, cs)
  {
    if |cs| > 0 {
      SubtreesBelow(s, p, cs[1..]);
    }
  }

  /**
   * With a level not above 0, Node.find returns the descendants of n that
   * pass, in document order; with level 1, its children that pass.
   */
  lemma NodeFindAll(s: Doc, n: NodeId, test: Elem -> bool, levels: int)
    requires LegacyDoc(s) && n in s && HasList(s[n].kind)
    ensures levels <= 0 ==> NodeFind(s, n, test, levels) == Some(Keep(s, Preorder(s, n)[1..], test))
    ensures levels == 1 ==> NodeFind(s, n, test, levels) == Some(Keep(s, s[n].children, test))
  {
    ChildrenIn(s, n);
    var cs := s[n].children;
    if levels <= 0 {
      FindListHasList(s, cs, test, levels);
      FindListAll(s, cs, test, levels);
      SubtreesBelow(s, n, cs);
    }
    FindListShallow(s, cs, test, HasList);
  }

  // --------------------------------------------------------------- getHtml

  /** The raw attribute text a node kept after parsing; "" where none is kept. */
  function RestOf(rests: map<NodeId, string>, n: NodeId): string {
    if n in rests then rests[n] else ""
  }

  /**
   * getHtml: texts and comments give their text, the root its children's
   * html; a tag gives its open tag with getTagAttributesString, then, when
   * closed, its children and its close tag; a tag still open gives only
   * its open tag, a self-closing one ` />`.
   */
  function LegacyHtml(s: Doc, rests: map<NodeId, string>, n: NodeId): string
    requires Valid(s) && n in s
    decreases Bound(s) - Depth(s, n), 1, 0
  {
    match s[n].kind
    case TextE(t) => t
    case CommentE(c) => c
    case RootE(_) => LegacyHtmlBelow(s, rests, n, s[n].children)
    case CollectionE => ""
    case TagE(d) =>
      var head := "<" + d.tag + NodeAttString(d, RestOf(rests, n));
      match d.closing
      case Yes => head + ">" + LegacyHtmlBelow(s, rests, n, s[n].children) + CloseTag(d)
      case Self => head + " />"
      case No => head + ">"
  }

  function LegacyHtmlBelow(s: Doc, rests: map<NodeId, string>, p: NodeId, cs: seq<NodeId>): string
    requires Valid(s) && p in s && ChildrenOf(s, p, cs)
    decreases Bound(s) - Depth(s, p), 0, |cs|
  {
    if |cs| == 0 then ""
    else
      ChildDepth(s, p, cs[0]);
      LegacyHtml(s, rests, cs[0]) + LegacyHtmlBelow(s, rests, p, cs[1..])
  }

  /** No raw attribute text is left over and no open tag holds children. */
  ghost predicate PlainTree(s: Doc, rests: map<NodeId, string>) {
    && NoCollections(s)
    && (forall m :: m in s ==> !Truthy(RestOf(rests, m)))
    && (forall m :: m in s && IsOpenTag(s[m].kind) ==> s[m].children == [])
  }

  /**
   * On a tree without leftover raw attributes whose open tags are childless
   * (what the builder returns), the older getHtml is the newer one.
   */
  lemma {:induction false} LegacyHtmlIsHtml(s: Doc, rests: map<NodeId, string>, n: NodeId)
    requires Valid(s) && PlainTree(s, rests) && n in s
    ensures LegacyHtml(s, rests, n) == Html(s, n)
    decreases Bound(s) - Depth(s, n), 1, 0
  {
    LegacyHtmlBelowIsHtml(s, rests, n, s[n].children);
    if s[n].kind.TagE? && s[n].kind.data.closing == No {
      assert HtmlBelow(s, n, s[n].children) == "";
    }
  }

  lemma {:induction false} LegacyHtmlBelowIsHtml(s: Doc, rests: map<NodeId, string>, p: NodeId, cs: seq<NodeId>)
    requires Valid(s) && PlainTree(s, rests) && p in s && ChildrenOf(s, p, cs)
    ensures LegacyHtmlBelow(s, rests, p, cs) == HtmlBelow(s, p, cs)
    decreases Bound(s) - Depth(s, p), 0, |cs|
  {
    if |cs| > 0 {
      ChildDepth(s, p, cs[0]);
      LegacyHtmlIsHtml(s, rests, cs[0]);
      LegacyHtmlBelowIsHtml(s, rests, p, cs[1..]);
    }
  }
}
