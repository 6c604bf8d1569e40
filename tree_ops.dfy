/**
 * The tree-editing methods of the newer node classes as functions over the
 * node heap: removeAt, removeChild and detach, addChild and addChildren,
 * detachChildren, insertAt and the operations built on it (replaceChild,
 * beforeChild, afterChild, replaceWithChildren), and replaceWith and wrap.
 * ChildrenNode (tags and the root) and CollectionNode differ: a collection
 * never detaches what it receives.
 */
module TreeOps {
  import opened Prelude
  import opened Arena
  import opened Edit
  import opened Elements
  import opened Dom

  /** Two heaps with the same nodes of the same kinds. */
  ghost predicate SameKinds(s: Doc, t: Doc) {
    t.Keys == s.Keys && forall m :: m in s ==> t[m].kind == s[m].kind
  }

  /** The document invariant carries over to an edit that keeps links valid. */
  lemma DocValidFrom(s: Doc, t: Doc)
    requires DocValid(s) && Valid(t) && SameKinds(s, t)
    requires forall m :: m in s && t[m].children != s[m].children ==> IsContainer(s[m].kind)
    requires forall m :: m in s && t[m].parent == Some(m) ==> s[m].parent == Some(m)
    ensures DocValid(t)
  {
  }

  // ----------------------------------------------------------- array_splice

  /**
   * PHP's array_splice(xs, i, del, ins) on a list: an offset past the end
   * is clamped to the end, and so is the removed range.
   */
  function SpliceAt<T>(xs: seq<T>, i: nat, del: nat, ins: seq<T>): (r: seq<T>)
    ensures i + del <= |xs| ==> r == xs[..i] + ins + xs[i + del..]
    ensures i >= |xs| ==> r == xs + ins
  {
    var j := if i <= |xs| then i else |xs|;
    var k := if j + del <= |xs| then j + del else |xs|;
    xs[..j] + ins + xs[k..]
  }

  // ------------------------------------------------------------- removal

  /** ChildrenNode.removeAt: the child at i loses its parent, then leaves the list. */
  function RemoveAt(s: Doc, p: NodeId, i: nat): (t: Doc)
    requires p in s && i < |s[p].children| && s[p].children[i] in s
    ensures t.Keys == s.Keys
  {
    var c := s[p].children[i];
    var u := SetParent(s, c, None);
    SetChildren(u, p, SpliceAt(u[p].children, i, 1, []))
  }

  /**
   * CollectionNode.removeChild as written: it walks a copy of the list and
   * splices the live list at the copy's index, so after a first removal the
   * indices no longer line up.
   */
  function CollRemoveAsWritten(live: seq<NodeId>, copy: seq<NodeId>, i: nat, x: NodeId): seq<NodeId>
    requires i <= |copy|
    decreases |copy| - i
  {
    if i == |copy| then live
    else CollRemoveAsWritten(if copy[i] == x then SpliceAt(live, i, 1, []) else live, copy, i + 1, x)
  }

  /** CollectionNode.removeChild as intended: every entry equal to x goes, the rest keep their order. */
  function Without(xs: seq<NodeId>, x: NodeId): (r: seq<NodeId>)
    ensures forall y :: y in r <==> y in xs && y != x
    ensures |r| == |xs| - multiset(xs)[x]
  {
    if |xs| == 0 then []
    else
      assert xs == [xs[0]] + xs[1..];
      if xs[0] == x then Without(xs[1..], x) else [xs[0]] + Without(xs[1..], x)
  }

  /** With a duplicate entry the loop removes the wrong node: [x, x, y] becomes [x]. */
  lemma CollRemoveAsWrittenDrops()
    ensures CollRemoveAsWritten([1, 1, 2], [1, 1, 2], 0, 1) == [1]
    ensures Without([1, 1, 2], 1) == [2]
  {
    assert SpliceAt([1, 1, 2], 0, 1, []) == [1, 2];
    assert SpliceAt([1, 2], 1, 1, []) == [1];
    assert [1, 1, 2][1..] == [1, 2];
    assert [1, 2][1..] == [2];
  }

  /** One turn of the loop. */
  lemma CollRemoveUnfold(live: seq<NodeId>, copy: seq<NodeId>, i: nat, x: NodeId)
    requires i < |copy|
    ensures CollRemoveAsWritten(live, copy, i, x)
         == CollRemoveAsWritten(if copy[i] == x then SpliceAt(live, i, 1, []) else live, copy, i + 1, x)
  {
  }

  /** Between two indices of the copy that hold no x, the loop changes nothing. */
  lemma {:induction false} CollRemoveSkip(live: seq<NodeId>, copy: seq<NodeId>, i: nat, j: nat, x: NodeId)
    requires i <= j <= |copy|
    requires forall k :: i <= k < j ==> copy[k] != x
    ensures CollRemoveAsWritten(live, copy, i, x) == CollRemoveAsWritten(live, copy, j, x)
    decreases j - i
  {
    if i < j {
      CollRemoveSkip(live, copy, i + 1, j, x);
    }
  }

  lemma {:induction false} WithoutAbsent(xs: seq<NodeId>, x: NodeId)
    requires x !in xs
    ensures Without(xs, x) == xs
  {
    if |xs| > 0 {
      WithoutAbsent(xs[1..], x);
      assert xs == [xs[0]] + xs[1..];
    }
  }

  lemma {:induction false} WithoutAppend(xs: seq<NodeId>, ys: seq<NodeId>, x: NodeId)
    ensures Without(xs + ys, x) == Without(xs, x) + Without(ys, x)
  {
    if |xs| > 0 {
      assert (xs + ys)[1..] == xs[1..] + ys;
      WithoutAppend(xs[1..], ys, x);
    } else {
      assert xs + ys == ys;
    }
  }

  lemma {:induction false} WithoutRemoveFirst(xs: seq<NodeId>, x: NodeId)
    requires NoDup(xs)
    ensures Without(xs, x) == RemoveFirst(xs, x)
  {
    if |xs| > 0 {
      if xs[0] == x {
        assert x !in xs[1..];
        WithoutAbsent(xs[1..], x);
        assert RemoveFirst(xs, x) == xs[1..];
      } else {
        assert NoDup(xs[1..]);
        WithoutRemoveFirst(xs[1..], x);
        RemoveFirstCons(xs, x);
      }
    }
  }


  /** On a list without duplicates the loop as written removes exactly the one entry. */
  lemma CollRemoveDistinct(cs: seq<NodeId>, x: NodeId)
    requires NoDup(cs)
    ensures CollRemoveAsWritten(cs, cs, 0, x) == Without(cs, x)
  {
    WithoutRemoveFirst(cs, x);
    var k := FirstIndex(cs, x);
    CollRemoveSkip(cs, cs, 0, k, x);
    if k < |cs| {
      var r := cs[..k] + cs[k + 1..];
      assert RemoveFirst(cs, x) == r;
      assert SpliceAt(cs, k, 1, []) == r;
      CollRemoveUnfold(cs, cs, k, x);
      forall j | k + 1 <= j < |cs|
        ensures cs[j] != x
      {
      }
      CollRemoveSkip(r, cs, k + 1, |cs|, x);
    } else {
      assert RemoveFirst(cs, x) == cs;
    }
  }

  /** n has a parent in the heap that holds a list of children. */
  predicate Attached(s: Doc, n: NodeId) {
    n in s && s[n].parent.Some? && s[n].parent.value in s && IsContainer(s[s[n].parent.value].kind)
  }

  /** removeChild, dispatched on the class of the parent. */
  function RemoveChild(s: Doc, p: NodeId, c: NodeId): (t: Doc)
    requires p in s && c in s && IsContainer(s[p].kind)
    ensures t.Keys == s.Keys
  {
    var cs := s[p].children;
    if HasList(s[p].kind) then
      if c in cs then RemoveAt(s, p, FirstIndex(cs, c)) else s
    else SetChildren(s, p, Without(cs, c))
  }

  /**
   * AbstractNode.detach: the parent removes the node from its list, then
   * the node forgets its parent. Calling it on a node without a parent is a
   * fatal error, so the parent is required.
   */
  function Detach(s: Doc, n: NodeId): (t: Doc)
    requires Attached(s, n)
    ensures t.Keys == s.Keys && t[n].parent.None?
  {
    SetParent(RemoveChild(s, s[n].parent.value, n), n, None)
  }

  /**
   * The link discipline without the finiteness of parent chains: every
   * listed child points back at its list, every parent lists its child, and
   * no list holds a node twice. Each edit below keeps it.
   */
  ghost predicate Linked(s: Doc) {
    ParentsAttached(s) && ChildrenPointBack(s) && ParentsList(s) && ListsDistinct(s)
  }

  ghost predicate ParentsAttached(s: Doc) {
    forall m :: m in s && s[m].parent.Some? ==> Attached(s, m)
  }

  ghost predicate ChildrenPointBack(s: Doc) {
    forall m, c :: m in s && c in s[m].children ==> c in s && s[c].parent == Some(m)
  }

  ghost predicate ParentsList(s: Doc) {
    forall m :: m in s && s[m].parent.Some? && s[m].parent.value != m && s[m].parent.value in s
      ==> m in s[s[m].parent.value].children
  }

  ghost predicate ListsDistinct(s: Doc) {
    forall m :: m in s ==> NoDup(s[m].children)
  }

  lemma DocValidLinked(s: Doc)
    requires DocValid(s)
    ensures Linked(s)
  {
    forall m | m in s && s[m].parent.Some?
      ensures Attached(s, m)
    {
      var q := s[m].parent.value;
      if q != m {
        assert m in s[q].children;
      }
    }
    forall m, c | m in s && c in s[m].children
      ensures c in s && s[c].parent == Some(m)
    {
      ListedByParent(s, m, c);
    }
  }

  /** With consistent links detach is exactly the unlinking of the node from its parent. */
  lemma DetachIsUnlink(s: Doc, n: NodeId)
    requires Attached(s, n) && s[n].parent != Some(n) && NoDup(s[s[n].parent.value].children)
    ensures Detach(s, n) == Unlink(s, n)
  {
    var p := s[n].parent.value;
    var cs := s[p].children;
    var r := RemoveFirst(cs, n);
    var removed: Doc;
    if HasList(s[p].kind) {
      if n in cs {
        var i := FirstIndex(cs, n);
        assert SpliceAt(cs, i, 1, []) == r;
        removed := RemoveAt(s, p, i);
        assert removed == SetChildren(SetParent(s, n, None), p, r);
      } else {
        removed := s;
        assert SetChildren(s, p, r) == s;
      }
    } else {
      WithoutRemoveFirst(cs, n);
      removed := SetChildren(s, p, r);
    }
    assert RemoveChild(s, p, n) == removed;
    var d := SetParent(removed, n, None);
    var u := Unlink(s, n);
    assert u == SetParent(SetChildren(s, p, r), n, None);
    assert forall m :: m in d ==> d[m] == u[m];
  }

  /**
   * The guard the additive operations need: detach only a node that has a
   * parent. The code calls detach unconditionally, which is fatal for fresh
   * nodes and for nodes that were already detached.
   */
  function DetachIfAttached(s: Doc, n: NodeId): (t: Doc)
    requires n in s && (s[n].parent.Some? ==> Attached(s, n))
    ensures t.Keys == s.Keys && t[n].parent.None?
  {
    if s[n].parent.Some? then Detach(s, n) else s
  }

  /**
   * t is s after n was detached: n is out of every list and has no parent,
   * and nothing else changes.
   */
  ghost predicate DetachedFrom(s: Doc, t: Doc, n: NodeId) {
    && t.Keys == s.Keys
    && forall m :: m in s ==>
         && t[m].kind == s[m].kind
         && t[m].children == RemoveFirst(s[m].children, n)
         && t[m].parent == if m == n then None else s[m].parent
  }

  /** Only n's parent, if any, lists n. */
  ghost predicate ListedByParentOnly(s: Doc, n: NodeId)
    requires n in s
  {
    forall m :: m in s && n in s[m].children ==> s[n].parent == Some(m)
  }

  lemma UnlinkDetached(s: Doc, n: NodeId)
    requires n in s && ListedByParentOnly(s, n) && s[n].parent.Some? && s[n].parent.value in s
    ensures DetachedFrom(s, Unlink(s, n), n)
  {
    var p := s[n].parent.value;
    var t := Unlink(s, n);
    forall m | m in s
      ensures t[m].kind == s[m].kind
      ensures t[m].children == RemoveFirst(s[m].children, n)
      ensures t[m].parent == if m == n then None else s[m].parent
    {
      assert s[n].parent != Some(m) ==> n !in s[m].children;
    }
  }

  /** A node without a parent is in no list: there is nothing to detach. */
  lemma UnlistedDetached(s: Doc, n: NodeId)
    requires n in s && ListedByParentOnly(s, n) && s[n].parent.None?
    ensures DetachedFrom(s, s, n)
  {
    forall m | m in s
      ensures s[m].children == RemoveFirst(s[m].children, n)
    {
      assert s[n].parent != Some(m) ==> n !in s[m].children;
    }
  }

  /** The guarded detach on consistent links (any node but a root that is its own parent). */
  lemma DetachIfAttachedSpec(s: Doc, n: NodeId)
    requires Linked(s) && n in s && s[n].parent != Some(n)
    ensures DetachedFrom(s, DetachIfAttached(s, n), n)
  {
    assert ListedByParentOnly(s, n);
    if s[n].parent.Some? {
      DetachIsUnlink(s, n);
      UnlinkDetached(s, n);
    } else {
      UnlistedDetached(s, n);
    }
  }

  /** Detaching keeps the links consistent. */
  lemma DetachedLinked(s: Doc, t: Doc, n: NodeId)
    requires Linked(s) && DetachedFrom(s, t, n)
    ensures Linked(t)
  {
    DetachedDown(s, t, n);
    DetachedUp(s, t, n);
  }

  lemma DetachedDown(s: Doc, t: Doc, n: NodeId)
    requires ChildrenPointBack(s) && ListsDistinct(s) && DetachedFrom(s, t, n)
    ensures ChildrenPointBack(t) && ListsDistinct(t)
  {
    forall m | m in t
      ensures NoDup(t[m].children)
      ensures forall c :: c in t[m].children ==> c in t && t[c].parent == Some(m)
    {
      RemoveFirstDistinct(s[m].children, n);
      forall c | c in t[m].children
        ensures c in t && t[c].parent == Some(m)
      {
        DetachedChild(s, t, n, m, c);
      }
    }
  }

  lemma DetachedChild(s: Doc, t: Doc, n: NodeId, m: NodeId, c: NodeId)
    requires ChildrenPointBack(s) && ListsDistinct(s) && DetachedFrom(s, t, n)
    requires m in s && c in t[m].children
    ensures c in t && t[c].parent == Some(m)
  {
    RemoveFirstDistinct(s[m].children, n);
    PointsBack(s, m, c);
  }

  lemma DetachedUp(s: Doc, t: Doc, n: NodeId)
    requires Linked(s) && DetachedFrom(s, t, n)
    ensures ParentsAttached(t) && ParentsList(t)
  {
    forall m | m in t && t[m].parent.Some?
      ensures Attached(t, m)
    {
    }
    forall m | m in t && t[m].parent.Some? && t[m].parent.value != m
      ensures m in t[t[m].parent.value].children
    {
      RemoveFirstDistinct(s[s[m].parent.value].children, n);
    }
  }

  // -------------------------------------------------------------- addition

  /** ChildrenNode.addChild, corrected: detach if attached, point at p, append. */
  function AddChild(s: Doc, p: NodeId, n: NodeId): (t: Doc)
    requires p in s && HasList(s[p].kind) && n in s && (s[n].parent.Some? ==> Attached(s, n))
    ensures t.Keys == s.Keys
  {
    var u := SetParent(DetachIfAttached(s, n), n, Some(p));
    SetChildren(u, p, u[p].children + [n])
  }

  /** ChildrenNode.addChild as written: detach is called whether or not the node has a parent. */
  function AddChildAsWritten(s: Doc, p: NodeId, n: NodeId): (r: Result<Doc>)
    requires p in s && HasList(s[p].kind) && n in s && (s[n].parent.Some? ==> Attached(s, n))
    ensures r.Err? <==> s[n].parent.None?
    ensures r.Ok? ==> r.value == AddChild(s, p, n)
  {
    if s[n].parent.None? then Err("detach on a node without a parent")
    else
      var u := SetParent(Detach(s, n), n, Some(p));
      Ok(SetChildren(u, p, u[p].children + [n]))
  }

  /**
   * t is s after n was moved to the end of p's list: n left its old list
   * and points at p, and nothing else changes.
   */
  ghost predicate AppendedTo(s: Doc, t: Doc, p: NodeId, n: NodeId) {
    && t.Keys == s.Keys
    && forall m :: m in s ==>
         && t[m].kind == s[m].kind
         && t[m].children == (if m == p then RemoveFirst(s[p].children, n) + [n] else RemoveFirst(s[m].children, n))
         && t[m].parent == if m == n then Some(p) else s[m].parent
  }

  /** Pointing a detached node at p and listing it last under p appends it to p. */
  lemma DetachedThenAppended(s: Doc, u: Doc, p: NodeId, n: NodeId)
    requires p in s && n in s && DetachedFrom(s, u, n)
    ensures AppendedTo(s, SetChildren(SetParent(u, n, Some(p)), p, u[p].children + [n]), p, n)
  {
    var v := SetParent(u, n, Some(p));
    var t := SetChildren(v, p, u[p].children + [n]);
    forall m | m in s
      ensures t[m].kind == s[m].kind
      ensures t[m].children == (if m == p then RemoveFirst(s[p].children, n) + [n] else RemoveFirst(s[m].children, n))
      ensures t[m].parent == if m == n then Some(p) else s[m].parent
    {
      assert v[m].children == u[m].children;
    }
  }

  lemma AddChildSpec(s: Doc, p: NodeId, n: NodeId)
    requires Linked(s) && p in s && HasList(s[p].kind) && n in s && s[n].parent != Some(n)
    ensures AppendedTo(s, AddChild(s, p, n), p, n)
  {
    DetachIfAttachedSpec(s, n);
    DetachedThenAppended(s, DetachIfAttached(s, n), p, n);
  }

  /** Appending keeps the links consistent, even when n is p itself. */
  lemma AppendedLinked(s: Doc, t: Doc, p: NodeId, n: NodeId)
    requires Linked(s) && p in s && n in s && HasList(s[p].kind) && AppendedTo(s, t, p, n)
    ensures Linked(t)
  {
    AppendedDown(s, t, p, n);
    AppendedUp(s, t, p, n);
  }

  lemma AppendedDown(s: Doc, t: Doc, p: NodeId, n: NodeId)
    requires ChildrenPointBack(s) && ListsDistinct(s) && p in s && n in s && AppendedTo(s, t, p, n)
    ensures ChildrenPointBack(t) && ListsDistinct(t)
  {
    forall m | m in t
      ensures NoDup(t[m].children)
      ensures forall c :: c in t[m].children ==> c in t && t[c].parent == Some(m)
    {
      RemoveFirstDistinct(s[m].children, n);
      if m == p {
        NoDupAppend(RemoveFirst(s[p].children, n), [n]);
      }
      forall c | c in t[m].children
        ensures c in t && t[c].parent == Some(m)
      {
        AppendedChild(s, t, p, n, m, c);
      }
    }
  }

  lemma AppendedChild(s: Doc, t: Doc, p: NodeId, n: NodeId, m: NodeId, c: NodeId)
    requires ChildrenPointBack(s) && ListsDistinct(s) && p in s && n in s && AppendedTo(s, t, p, n)
    requires m in s && c in t[m].children
    ensures c in t && t[c].parent == Some(m)
  {
    RemoveFirstDistinct(s[m].children, n);
    if c != n {
      PointsBack(s, m, c);
    }
  }

  lemma PointsBack(s: Doc, m: NodeId, c: NodeId)
    requires ChildrenPointBack(s) && m in s && c in s[m].children
    ensures c in s && s[c].parent == Some(m)
  {
  }

  lemma AppendedUp(s: Doc, t: Doc, p: NodeId, n: NodeId)
    requires Linked(s) && p in s && n in s && HasList(s[p].kind) && AppendedTo(s, t, p, n)
    ensures ParentsAttached(t) && ParentsList(t)
  {
    forall m | m in t && t[m].parent.Some?
      ensures Attached(t, m)
    {
    }
    forall m | m in t && t[m].parent.Some? && t[m].parent.value != m
      ensures m in t[t[m].parent.value].children
    {
      if m != n {
        RemoveFirstDistinct(s[s[m].parent.value].children, n);
      }
    }
  }

  // ------------------------------------------------------ document validity

  /** Unlinking a node keeps the document valid. */
  lemma UnlinkDocValid(s: Doc, n: NodeId)
    requires DocValid(s) && n in s && !IsTop(s, n)
    ensures DocValid(Unlink(s, n))
  {
    UnlinkValid(s, n);
    var t := Unlink(s, n);
    var p := s[n].parent.value;
    assert n in s[p].children;
    forall m | m in s
      ensures t[m].kind == s[m].kind
      ensures t[m].children != s[m].children ==> IsContainer(s[m].kind)
      ensures t[m].parent == Some(m) ==> s[m].parent == Some(m)
    {
    }
    DocValidFrom(s, t);
  }

  /** detach keeps the document valid. */
  lemma DetachValid(s: Doc, n: NodeId)
    requires DocValid(s) && n in s && !IsTop(s, n)
    ensures Attached(s, n) && Valid(Unlink(s, n)) && Detach(s, n) == Unlink(s, n)
    ensures DocValid(Detach(s, n))
  {
    DocValidLinked(s);
    DetachIsUnlink(s, n);
    UnlinkDocValid(s, n);
  }

  /** After the guarded detach, n is no ancestor of anything it was not an ancestor of. */
  lemma DetachIfAttachedAnc(s: Doc, n: NodeId, a: NodeId, m: NodeId)
    requires DocValid(s) && n in s && s[n].parent != Some(n) && m in s
    ensures s[n].parent.Some? ==> Attached(s, n)
    ensures DocValid(DetachIfAttached(s, n))
    ensures AncOrSelf(DetachIfAttached(s, n), a, m) ==> AncOrSelf(s, a, m)
  {
    if s[n].parent.Some? {
      DetachValid(s, n);
      UnlinkAnc(s, n, a, m);
    }
  }

  /** addChild appends the detached node with Link. */
  lemma AddChildIsLink(s: Doc, p: NodeId, n: NodeId)
    requires p in s && HasList(s[p].kind) && n in s && (s[n].parent.Some? ==> Attached(s, n))
    ensures AddChild(s, p, n) == Link(DetachIfAttached(s, n), p, [n], |DetachIfAttached(s, n)[p].children|)
  {
    var t := DetachIfAttached(s, n);
    var cs := t[p].children;
    var k := |cs|;
    assert cs[..k] + [n] + cs[k..] == cs + [n];
    var u := SetParent(t, n, Some(p));
    assert SetParents(t, [n], Some(p)) == u;
    assert u[p].children == cs;
  }

  /** addChild keeps the document valid as long as n is neither p nor one of p's ancestors. */
  lemma AddChildValid(s: Doc, p: NodeId, n: NodeId)
    requires DocValid(s) && p in s && HasList(s[p].kind) && n in s
    requires s[n].parent != Some(n) && !AncOrSelf(s, n, p)
    ensures s[n].parent.Some? ==> Attached(s, n)
    ensures DocValid(AddChild(s, p, n))
  {
    DetachIfAttachedAnc(s, n, n, p);
    DocValidLinked(s);
    DetachIfAttachedSpec(s, n);
    var t := DetachIfAttached(s, n);
    assert t[n].parent.None? && t[p].kind == s[p].kind;
    AppendLinkValid(t, p, n);
    AddChildIsLink(s, p, n);
  }

  /** Linking one parentless node, not an ancestor of p, at the end of p's list. */
  lemma AppendLinkValid(t: Doc, p: NodeId, n: NodeId)
    requires DocValid(t) && p in t && HasList(t[p].kind) && n in t && t[n].parent.None? && !AncOrSelf(t, n, p)
    ensures DocValid(Link(t, p, [n], |t[p].children|))
  {
    var k := |t[p].children|;
    assert LinkReady(t, p, [n], k);
    LinkDocValid(t, p, [n], k);
  }

  /** Link keeps the document valid when it inserts into a container. */
  lemma LinkDocValid(s: Doc, p: NodeId, ns: seq<NodeId>, i: nat)
    requires DocValid(s) && LinkReady(s, p, ns, i) && IsContainer(s[p].kind)
    ensures DocValid(Link(s, p, ns, i))
  {
    LinkValid(s, p, ns, i);
    LinkShape(s, p, ns, i);
    var t := Link(s, p, ns, i);
    forall m | m in s
      ensures t[m].kind == s[m].kind
      ensures t[m].children != s[m].children ==> IsContainer(s[m].kind)
      ensures t[m].parent == Some(m) ==> s[m].parent == Some(m)
    {
    }
    DocValidFrom(s, t);
  }

  /** A fresh parentless, childless node keeps the document valid. */
  lemma FreshDocValid(s: Doc, w: NodeId, e: Elem)
    requires DocValid(s) && w !in s
    ensures DocValid(s[w := Rec(e, None, [])])
  {
    AddFreshValid(s, w, e);
  }
}
