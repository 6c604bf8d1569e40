/**
 * The list edits of CollectionNode that differ from ChildrenNode: adding
 * and replacing never detach the new nodes from a previous parent, so a
 * node can end up listed by two containers while pointing at only one.
 */
module Collection {
  import opened Prelude
  import opened Arena
  import opened Edit
  import opened Dom
  import opened TreeOps

  /** CollectionNode.addChild: point n at p and append it, without detaching it first. */
  function CollAddChild(s: Doc, p: NodeId, n: NodeId): (t: Doc)
    requires p in s && n in s
    ensures t.Keys == s.Keys
  {
    var u := SetParent(s, n, Some(p));
    SetChildren(u, p, u[p].children + [n])
  }

  /** CollectionNode.addChildren: addChild for each node, in order. */
  function CollAddChildren(s: Doc, p: NodeId, ns: seq<NodeId>): (t: Doc)
    requires p in s && forall n :: n in ns ==> n in s
    ensures t.Keys == s.Keys
    decreases |ns|
  {
    if |ns| == 0 then s else CollAddChildren(CollAddChild(s, p, ns[0]), p, ns[1..])
  }

  /**
   * Adding to a collection appends the nodes in order and points them at
   * it; every other list is unchanged, so a node taken from another
   * container is still listed there.
   */
  lemma {:induction false} CollAddChildrenSpec(s: Doc, p: NodeId, ns: seq<NodeId>)
    requires p in s && forall n :: n in ns ==> n in s
    ensures var t := CollAddChildren(s, p, ns);
      && t[p].children == s[p].children + ns
      && (forall m :: m in s ==> t[m].kind == s[m].kind)
      && (forall m :: m in s && m != p ==> t[m].children == s[m].children)
      && (forall m :: m in s ==> t[m].parent == if m in ns then Some(p) else s[m].parent)
    decreases |ns|
  {
    if |ns| == 0 {
      assert s[p].children + ns == s[p].children;
    } else {
      var n, rest := ns[0], ns[1..];
      assert ns == [n] + rest;
      var u := CollAddChild(s, p, n);
      CollAddStep(s, p, n);
      CollAddChildrenSpec(u, p, rest);
      CollAddCompose(s, u, CollAddChildren(u, p, rest), p, n, rest);
    }
  }

  lemma CollAddStep(s: Doc, p: NodeId, n: NodeId)
    requires p in s && n in s
    ensures var u := CollAddChild(s, p, n);
      && u[p].children == s[p].children + [n]
      && (forall m :: m in s ==> u[m].kind == s[m].kind)
      && (forall m :: m in s && m != p ==> u[m].children == s[m].children)
      && (forall m :: m in s ==> u[m].parent == if m == n then Some(p) else s[m].parent)
  {
  }

  lemma CollAddCompose(s: Doc, u: Doc, t: Doc, p: NodeId, n: NodeId, rest: seq<NodeId>)
    requires p in s && u.Keys == s.Keys && t.Keys == s.Keys
    requires u[p].children == s[p].children + [n]
    requires forall m :: m in s ==> u[m].kind == s[m].kind
    requires forall m :: m in s && m != p ==> u[m].children == s[m].children
    requires forall m :: m in s ==> u[m].parent == if m == n then Some(p) else s[m].parent
    requires t[p].children == u[p].children + rest
    requires forall m :: m in s ==> t[m].kind == u[m].kind
    requires forall m :: m in s && m != p ==> t[m].children == u[m].children
    requires forall m :: m in s ==> t[m].parent == if m in rest then Some(p) else u[m].parent
    ensures t[p].children == s[p].children + ([n] + rest)
    ensures forall m :: m in s ==> t[m].kind == s[m].kind
    ensures forall m :: m in s && m != p ==> t[m].children == s[m].children
    ensures forall m :: m in s ==> t[m].parent == if m in [n] + rest then Some(p) else s[m].parent
  {
    assert s[p].children + ([n] + rest) == (s[p].children + [n]) + rest;
  }

  /** A node added to a collection while it has another parent breaks the link discipline. */
  lemma CollAddChildUnlinks(s: Doc, p: NodeId, n: NodeId)
    requires Linked(s) && p in s && n in s && s[n].parent.Some? && s[n].parent.value != p
    requires s[n].parent.value != n
    ensures !Linked(CollAddChild(s, p, n))
  {
    var q := s[n].parent.value;
    var t := CollAddChild(s, p, n);
    assert n in s[q].children;
    assert n in t[q].children && t[n].parent == Some(p);
  }

  /**
   * CollectionNode.replaceChild: the first entry equal to c is replaced by
   * the new nodes, c loses its parent, and then the new nodes point at p; no
   * new node is detached from a previous parent.
   */
  function CollReplaceChild(s: Doc, p: NodeId, c: NodeId, ns: seq<NodeId>): (t: Doc)
    requires p in s && c in s && forall n :: n in ns ==> n in s
    ensures t.Keys == s.Keys
  {
    var cs := s[p].children;
    if c in cs then
      var u := SetChildren(s, p, SpliceAt(cs, FirstIndex(cs, c), 1, ns));
      SetParents(SetParent(u, c, None), ns, Some(p))
    else s
  }

  /** replaceChild on a collection fills c's first slot with the new nodes, in order. */
  lemma CollReplaceChildSpec(s: Doc, p: NodeId, c: NodeId, ns: seq<NodeId>)
    requires p in s && c in s && forall n :: n in ns ==> n in s
    ensures var cs := s[p].children;
      var t := CollReplaceChild(s, p, c, ns);
      && (c !in cs ==> t == s)
      && (c in cs ==> FilledSlot(s, t, p, c, ns))
  {
    var cs := s[p].children;
    if c in cs {
      var i := FirstIndex(cs, c);
      var u := SetChildren(s, p, SpliceAt(cs, i, 1, ns));
      var v := SetParent(u, c, None);
      assert SpliceAt(cs, i, 1, ns) == cs[..i] + ns + cs[i + 1..];
      FillFrame(s, u, v, CollReplaceChild(s, p, c, ns), p, c, ns);
    }
  }

  /** t is s with c's slot in p's list holding ns instead, c parentless and ns pointing at p. */
  ghost predicate FilledSlot(s: Doc, t: Doc, p: NodeId, c: NodeId, ns: seq<NodeId>)
    requires p in s
  {
    var cs := s[p].children;
    var i := FirstIndex(cs, c);
    && i < |cs|
    && t.Keys == s.Keys
    && t[p].children == cs[..i] + ns + cs[i + 1..]
    && (forall m :: m in s && m != p ==> t[m].children == s[m].children)
    && (forall m :: m in s ==> t[m].kind == s[m].kind)
    && (forall m :: m in s ==>
          t[m].parent == (if m in ns then Some(p) else if m == c then None else s[m].parent))
  }

  lemma FillFrame(s: Doc, u: Doc, v: Doc, t: Doc, p: NodeId, c: NodeId, ns: seq<NodeId>)
    requires p in s && c in s && c in s[p].children
    requires u == SetChildren(s, p, s[p].children[..FirstIndex(s[p].children, c)] + ns
                                    + s[p].children[FirstIndex(s[p].children, c) + 1..])
    requires forall n :: n in ns ==> n in s
    requires v == SetParent(u, c, None) && t == SetParents(v, ns, Some(p))
    ensures FilledSlot(s, t, p, c, ns)
  {
  }
}
