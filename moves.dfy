/**
 * The operations of ChildrenNode that move several nodes at once:
 * addChildren, detachChildren and insertAt with the operations built on it
 * (replaceChild, beforeChild, afterChild, replaceWithChildren). Each loop
 * over the new nodes is a fold of the one-node edits of TreeOps; its effect
 * is stated pointwise against the heap before the call, and in a valid
 * document it coincides with detaching all the nodes and linking them in
 * one go, which keeps the document valid.
 */
module Moves {
  import opened Prelude
  import opened Arena
  import opened Edit
  import opened Elements
  import opened Dom
  import opened TreeOps

  // ------------------------------------------------------------ sequences

  /** The list after removing the first occurrence of each of ns, in turn. */
  function RemoveAll(xs: seq<NodeId>, ns: seq<NodeId>): seq<NodeId>
    decreases |ns|
  {
    if |ns| == 0 then xs else RemoveAll(RemoveFirst(xs, ns[0]), ns[1..])
  }

  lemma {:induction false} RemoveAllSnoc(xs: seq<NodeId>, ns: seq<NodeId>, n: NodeId)
    ensures RemoveAll(xs, ns + [n]) == RemoveFirst(RemoveAll(xs, ns), n)
    decreases |ns|
  {
    if |ns| == 0 {
      assert ns + [n] == [n];
      assert [n][1..] == [];
    } else {
      assert (ns + [n])[0] == ns[0];
      assert (ns + [n])[1..] == ns[1..] + [n];
      RemoveAllSnoc(RemoveFirst(xs, ns[0]), ns[1..], n);
    }
  }

  /** On a list without duplicates RemoveAll is the filter by non-membership in ns. */
  lemma {:induction false} RemoveAllDistinct(xs: seq<NodeId>, ns: seq<NodeId>)
    requires NoDup(xs)
    ensures NoDup(RemoveAll(xs, ns))
    ensures forall y :: y in RemoveAll(xs, ns) <==> y in xs && y !in ns
    decreases |ns|
  {
    if |ns| > 0 {
      var ys := RemoveFirst(xs, ns[0]);
      var r := RemoveAll(xs, ns);
      assert r == RemoveAll(ys, ns[1..]);
      RemoveFirstDistinct(xs, ns[0]);
      RemoveAllDistinct(ys, ns[1..]);
      forall y
        ensures y in r <==> y in xs && y !in ns
      {
        InCons(ns, y);
      }
    }
  }

  /** Whatever RemoveAll keeps was already in the list. */
  lemma {:induction false} RemoveAllSub(xs: seq<NodeId>, ns: seq<NodeId>, y: NodeId)
    requires y in RemoveAll(xs, ns)
    ensures y in xs
    decreases |ns|
  {
    if |ns| > 0 {
      RemoveAllSub(RemoveFirst(xs, ns[0]), ns[1..], y);
    }
  }

  lemma {:induction false} RemoveAllAbsent(xs: seq<NodeId>, ns: seq<NodeId>)
    requires forall n :: n in ns ==> n !in xs
    ensures RemoveAll(xs, ns) == xs
    decreases |ns|
  {
    if |ns| > 0 {
      RemoveAllAbsent(xs, ns[1..]);
    }
  }

  // ------------------------------------------------------------- frames

  /** Every listed node may be detached: it is in the heap and, if it has a parent, attached. */
  predicate Movable(s: Doc, ns: seq<NodeId>) {
    forall n :: n in ns ==> n in s && (s[n].parent.Some? ==> Attached(s, n))
  }

  /** t differs from s at most in lists and in the parent of n. */
  ghost predicate KeepsOthers(s: Doc, t: Doc, n: NodeId) {
    t.Keys == s.Keys
    && forall m :: m in s ==> t[m].kind == s[m].kind && (m != n ==> t[m].parent == s[m].parent)
  }

  lemma KeepsSetParent(s: Doc, n: NodeId, q: Option<NodeId>)
    requires n in s
    ensures KeepsOthers(s, SetParent(s, n, q), n)
  {
  }

  lemma KeepsSetChildren(s: Doc, p: NodeId, cs: seq<NodeId>, n: NodeId)
    requires p in s
    ensures KeepsOthers(s, SetChildren(s, p, cs), n)
  {
  }

  lemma KeepsTrans(s: Doc, u: Doc, t: Doc, n: NodeId)
    requires KeepsOthers(s, u, n) && KeepsOthers(u, t, n)
    ensures KeepsOthers(s, t, n)
  {
  }

  /** removeChild changes lists and the parent of the removed child only. */
  lemma RemoveChildKeeps(s: Doc, p: NodeId, n: NodeId)
    requires p in s && n in s && IsContainer(s[p].kind)
    ensures KeepsOthers(s, RemoveChild(s, p, n), n)
  {
    var cs := s[p].children;
    if HasList(s[p].kind) {
      if n in cs {
        var i := FirstIndex(cs, n);
        var u := SetParent(s, n, None);
        KeepsSetParent(s, n, None);
        KeepsSetChildren(u, p, SpliceAt(u[p].children, i, 1, []), n);
        KeepsTrans(s, u, SetChildren(u, p, SpliceAt(u[p].children, i, 1, [])), n);
      }
    } else {
      KeepsSetChildren(s, p, Without(cs, n), n);
    }
  }

  lemma DetachFrame(s: Doc, n: NodeId)
    requires n in s && (s[n].parent.Some? ==> Attached(s, n))
    ensures KeepsOthers(s, DetachIfAttached(s, n), n)
  {
    if s[n].parent.Some? {
      var p := s[n].parent.value;
      var u := RemoveChild(s, p, n);
      RemoveChildKeeps(s, p, n);
      KeepsSetParent(u, n, None);
      KeepsTrans(s, u, SetParent(u, n, None), n);
    }
  }

  lemma MovableStep(s: Doc, t: Doc, n: NodeId, ns: seq<NodeId>)
    requires Movable(s, ns) && KeepsOthers(s, t, n)
    requires n in t && (t[n].parent.Some? ==> Attached(t, n))
    ensures Movable(t, ns)
  {
    forall x | x in ns && x != n && t[x].parent.Some?
      ensures Attached(t, x)
    {
      assert Attached(s, x);
    }
  }

  lemma DocValidMovable(s: Doc, ns: seq<NodeId>)
    requires DocValid(s) && forall n :: n in ns ==> n in s
    ensures Movable(s, ns)
  {
    DocValidLinked(s);
  }

  // --------------------------------------------------------- detaching many

  /** Detaches each of ns that has a parent, in order. */
  function DetachAll(s: Doc, ns: seq<NodeId>): (t: Doc)
    requires Movable(s, ns)
    ensures t.Keys == s.Keys
    decreases |ns|
  {
    if |ns| == 0 then s
    else
      var u := DetachIfAttached(s, ns[0]);
      DetachFrame(s, ns[0]);
      MovableStep(s, u, ns[0], ns[1..]);
      DetachAll(u, ns[1..])
  }

  /** t is s with every node of ns out of all lists and without a parent. */
  ghost predicate DetachedAll(s: Doc, t: Doc, ns: seq<NodeId>) {
    && t.Keys == s.Keys
    && forall m :: m in s ==>
         && t[m].kind == s[m].kind
         && t[m].children == RemoveAll(s[m].children, ns)
         && t[m].parent == if m in ns then None else s[m].parent
  }

  /**
   * Detaching one node when its parent's list has no duplicates and no
   * other list holds it; the node need not be listed by its parent.
   */
  lemma DetachStep(s: Doc, n: NodeId)
    requires n in s && s[n].parent != Some(n)
    requires s[n].parent.Some? ==> Attached(s, n) && NoDup(s[s[n].parent.value].children)
    requires forall m :: m in s && n in s[m].children ==> s[n].parent == Some(m)
    ensures DetachedFrom(s, DetachIfAttached(s, n), n)
  {
    assert ListedByParentOnly(s, n);
    if s[n].parent.Some? {
      DetachIsUnlink(s, n);
      UnlinkDetached(s, n);
    } else {
      UnlistedDetached(s, n);
    }
  }

  /** DetachAll after its first turn. */
  lemma DetachAllUnfold(s: Doc, ns: seq<NodeId>)
    requires Movable(s, ns) && |ns| > 0
    ensures Movable(DetachIfAttached(s, ns[0]), ns[1..])
    ensures DetachAll(s, ns) == DetachAll(DetachIfAttached(s, ns[0]), ns[1..])
  {
    DetachFrame(s, ns[0]);
    MovableStep(s, DetachIfAttached(s, ns[0]), ns[0], ns[1..]);
  }

  /** Detaching n and then the rest is detaching all of them. */
  lemma DetachedCompose(s: Doc, u: Doc, t: Doc, ns: seq<NodeId>)
    requires |ns| > 0 && DetachedFrom(s, u, ns[0]) && DetachedAll(u, t, ns[1..])
    ensures DetachedAll(s, t, ns)
  {
    assert ns == [ns[0]] + ns[1..];
  }

  /**
   * Detaching nodes in a heap whose listed children point back at their
   * lists, and whose lists hold no duplicates, takes exactly them out.
   */
  lemma {:induction false} DetachAllSpec(s: Doc, ns: seq<NodeId>)
    requires ChildrenPointBack(s) && ListsDistinct(s) && Movable(s, ns)
    requires forall n :: n in ns ==> s[n].parent != Some(n)
    ensures DetachedAll(s, DetachAll(s, ns), ns)
    decreases |ns|
  {
    if |ns| > 0 {
      var n := ns[0];
      var u := DetachIfAttached(s, n);
      DetachStep(s, n);
      DetachedDown(s, u, n);
      DetachAllUnfold(s, ns);
      DetachAllSpec(u, ns[1..]);
      DetachedCompose(s, u, DetachAll(s, ns), ns);
    }
  }

  /** Detaching many keeps the document valid and creates no new ancestry. */
  lemma {:induction false} DetachAllValid(s: Doc, ns: seq<NodeId>, a: NodeId, m: NodeId)
    requires DocValid(s) && Movable(s, ns) && m in s
    requires forall n :: n in ns ==> s[n].parent != Some(n)
    ensures DocValid(DetachAll(s, ns))
    ensures AncOrSelf(DetachAll(s, ns), a, m) ==> AncOrSelf(s, a, m)
    decreases |ns|
  {
    if |ns| > 0 {
      var n := ns[0];
      var u := DetachIfAttached(s, n);
      DetachIfAttachedAnc(s, n, a, m);
      DetachFrame(s, n);
      MovableStep(s, u, n, ns[1..]);
      DetachAllValid(u, ns[1..], a, m);
    }
  }

  // ------------------------------------------------- moving many under p

  /**
   * t is s after ns moved under p: they are out of every other list and
   * point at p, p's list is cs, and nothing else changes.
   */
  ghost predicate MovedTo(s: Doc, t: Doc, p: NodeId, ns: seq<NodeId>, cs: seq<NodeId>) {
    && t.Keys == s.Keys
    && forall m :: m in s ==>
         && t[m].kind == s[m].kind
         && t[m].children == (if m == p then cs else RemoveAll(s[m].children, ns))
         && t[m].parent == if m in ns then Some(p) else s[m].parent
  }

  /** The relation determines the heap. */
  lemma MovedUnique(s: Doc, t1: Doc, t2: Doc, p: NodeId, ns: seq<NodeId>, cs: seq<NodeId>)
    requires MovedTo(s, t1, p, ns, cs) && MovedTo(s, t2, p, ns, cs)
    ensures t1 == t2
  {
    forall m | m in t1
      ensures t1[m] == t2[m]
    {
    }
  }

  /** Detaching ns and linking them under p at k moves them there. */
  lemma LinkMoved(s: Doc, d: Doc, p: NodeId, ns: seq<NodeId>, k: nat)
    requires DetachedAll(s, d, ns) && Valid(d) && LinkReady(d, p, ns, k)
    ensures MovedTo(s, Link(d, p, ns, k), p, ns, d[p].children[..k] + ns + d[p].children[k..])
  {
    LinkShape(d, p, ns, k);
  }

  // --------------------------------------------------------------- insertAt

  /** insertAt's loop: each new node is detached if attached, then points at p. */
  function Prepare(s: Doc, p: NodeId, ns: seq<NodeId>): (t: Doc)
    requires p in s && HasList(s[p].kind) && Movable(s, ns)
    ensures t.Keys == s.Keys
    decreases |ns|
  {
    if |ns| == 0 then s
    else
      var v := SetParent(DetachIfAttached(s, ns[0]), ns[0], Some(p));
      PrepareStepFrame(s, p, ns);
      Prepare(v, p, ns[1..])
  }

  lemma PrepareStepFrame(s: Doc, p: NodeId, ns: seq<NodeId>)
    requires p in s && HasList(s[p].kind) && Movable(s, ns) && |ns| > 0
    ensures KeepsOthers(s, SetParent(DetachIfAttached(s, ns[0]), ns[0], Some(p)), ns[0])
    ensures Movable(SetParent(DetachIfAttached(s, ns[0]), ns[0], Some(p)), ns[1..])
  {
    var v := SetParent(DetachIfAttached(s, ns[0]), ns[0], Some(p));
    DetachFrame(s, ns[0]);
    MovableStep(s, v, ns[0], ns[1..]);
  }

  /** ChildrenNode.insertAt: the prepared nodes are spliced into p's list at i (clamped). */
  function InsertAt(s: Doc, p: NodeId, i: nat, ns: seq<NodeId>): (t: Doc)
    requires p in s && HasList(s[p].kind) && Movable(s, ns)
    ensures t.Keys == s.Keys
  {
    var u := Prepare(s, p, ns);
    SetChildren(u, p, SpliceAt(u[p].children, i, 0, ns))
  }

  /** t is s after insertAt's loop: ns are out of every list and point at p. */
  ghost predicate Prepared(s: Doc, t: Doc, p: NodeId, ns: seq<NodeId>) {
    && t.Keys == s.Keys
    && forall m :: m in s ==>
         && t[m].kind == s[m].kind
         && t[m].children == RemoveAll(s[m].children, ns)
         && t[m].parent == if m in ns then Some(p) else s[m].parent
  }

  lemma PreparedCompose(s: Doc, u: Doc, t: Doc, p: NodeId, ns: seq<NodeId>)
    requires |ns| > 0 && ns[0] in u && DetachedFrom(s, u, ns[0])
    requires Prepared(SetParent(u, ns[0], Some(p)), t, p, ns[1..])
    ensures Prepared(s, t, p, ns)
  {
    var v := SetParent(u, ns[0], Some(p));
    forall m | m in s
      ensures t[m].kind == s[m].kind
      ensures t[m].children == RemoveAll(s[m].children, ns)
      ensures t[m].parent == if m in ns then Some(p) else s[m].parent
    {
      assert m in u && m in v;
      assert v[m].children == RemoveFirst(s[m].children, ns[0]);
      assert m in ns <==> m == ns[0] || m in ns[1..];
    }
  }

  /** Pointing a node that no list holds at p keeps listed children pointing back. */
  lemma PointedLinks(s: Doc, u: Doc, v: Doc, p: NodeId, n: NodeId)
    requires ChildrenPointBack(s) && ListsDistinct(s) && DetachedFrom(s, u, n)
    requires n in u && v == SetParent(u, n, Some(p))
    ensures ChildrenPointBack(v) && ListsDistinct(v)
  {
    forall m | m in v
      ensures NoDup(v[m].children)
      ensures forall c :: c in v[m].children ==> c in v && v[c].parent == Some(m)
    {
      assert v[m].children == RemoveFirst(s[m].children, n);
      RemoveFirstDistinct(s[m].children, n);
      forall c | c in v[m].children
        ensures c in v && v[c].parent == Some(m)
      {
        PointsBack(s, m, c);
      }
    }
  }

  lemma PointedParents(s: Doc, u: Doc, v: Doc, p: NodeId, ns: seq<NodeId>)
    requires |ns| > 0 && DetachedFrom(s, u, ns[0]) && ns[0] in u && v == SetParent(u, ns[0], Some(p))
    requires p !in ns && forall n :: n in ns ==> n in s && s[n].parent != Some(n)
    ensures forall n :: n in ns[1..] ==> v[n].parent != Some(n)
  {
  }

  /** One turn of insertAt's loop keeps what the next turn needs. */
  lemma PrepareStep(s: Doc, p: NodeId, ns: seq<NodeId>)
    requires ChildrenPointBack(s) && ListsDistinct(s)
    requires p in s && HasList(s[p].kind) && Movable(s, ns) && p !in ns && |ns| > 0
    requires forall n :: n in ns ==> s[n].parent != Some(n)
    ensures DetachedFrom(s, DetachIfAttached(s, ns[0]), ns[0])
    ensures var v := SetParent(DetachIfAttached(s, ns[0]), ns[0], Some(p));
      && ChildrenPointBack(v) && ListsDistinct(v)
      && p in v && HasList(v[p].kind) && Movable(v, ns[1..]) && p !in ns[1..]
      && forall n :: n in ns[1..] ==> v[n].parent != Some(n)
  {
    var n := ns[0];
    var u := DetachIfAttached(s, n);
    var v := SetParent(u, n, Some(p));
    DetachStep(s, n);
    PointedLinks(s, u, v, p, n);
    PointedParents(s, u, v, p, ns);
    PrepareStepFrame(s, p, ns);
  }

  /** After the loop of insertAt every new node is out of its old list and points at p. */
  lemma {:induction false} PrepareSpec(s: Doc, p: NodeId, ns: seq<NodeId>)
    requires ChildrenPointBack(s) && ListsDistinct(s)
    requires p in s && HasList(s[p].kind) && Movable(s, ns) && p !in ns
    requires forall n :: n in ns ==> s[n].parent != Some(n)
    ensures Prepared(s, Prepare(s, p, ns), p, ns)
    decreases |ns|
  {
    if |ns| > 0 {
      var u := DetachIfAttached(s, ns[0]);
      var v := SetParent(u, ns[0], Some(p));
      PrepareStep(s, p, ns);
      PrepareSpec(v, p, ns[1..]);
      PreparedCompose(s, u, Prepare(s, p, ns), p, ns);
    }
  }

  /** insertAt moves ns under p and splices them in at i of p's remaining list. */
  lemma InsertAtSpec(s: Doc, p: NodeId, i: nat, ns: seq<NodeId>)
    requires ChildrenPointBack(s) && ListsDistinct(s)
    requires p in s && HasList(s[p].kind) && Movable(s, ns) && p !in ns
    requires forall n :: n in ns ==> s[n].parent != Some(n)
    ensures MovedTo(s, InsertAt(s, p, i, ns), p, ns, SpliceAt(RemoveAll(s[p].children, ns), i, 0, ns))
  {
    PrepareSpec(s, p, ns);
  }

  /** The conditions under which moving ns under p keeps a valid document valid. */
  ghost predicate CanMove(s: Doc, p: NodeId, ns: seq<NodeId>)
    requires DocValid(s)
  {
    p in s && HasList(s[p].kind) && NoDup(ns)
    && forall n :: n in ns ==> n in s && s[n].parent != Some(n) && !AncOrSelf(s, n, p)
  }

  /** Detaching ns leaves them ready to be linked under p. */
  lemma DetachAllReady(s: Doc, p: NodeId, ns: seq<NodeId>, k: nat)
    requires DocValid(s) && CanMove(s, p, ns) && Movable(s, ns)
    requires k <= |DetachAll(s, ns)[p].children|
    ensures p !in ns
    ensures DetachedAll(s, DetachAll(s, ns), ns) && DocValid(DetachAll(s, ns))
    ensures LinkReady(DetachAll(s, ns), p, ns, k)
  {
    assert p !in ns by {
      if p in ns {
        assert AncOrSelf(s, p, p);
      }
    }
    DocValidLinked(s);
    DetachAllSpec(s, ns);
    var d := DetachAll(s, ns);
    DetachAllValid(s, ns, p, p);
    forall n | n in ns
      ensures !AncOrSelf(d, n, p)
    {
      DetachAllValid(s, ns, n, p);
    }
  }

  /** insertAt keeps the document valid when none of the new nodes is p or above it. */
  lemma InsertAtValid(s: Doc, p: NodeId, i: nat, ns: seq<NodeId>)
    requires DocValid(s) && CanMove(s, p, ns)
    ensures Movable(s, ns) && DocValid(InsertAt(s, p, i, ns))
  {
    DocValidMovable(s, ns);
    DocValidLinked(s);
    var d := DetachAll(s, ns);
    var ds := d[p].children;
    var k := if i <= |ds| then i else |ds|;
    DetachAllReady(s, p, ns, k);
    InsertAtSpec(s, p, i, ns);
    assert SpliceAt(ds, i, 0, ns) == ds[..k] + ns + ds[k..];
    LinkMoved(s, d, p, ns, k);
    MovedUnique(s, InsertAt(s, p, i, ns), Link(d, p, ns, k), p, ns, ds[..k] + ns + ds[k..]);
    LinkDocValid(d, p, ns, k);
  }

  // ------------------------------------------------------------ addChildren

  lemma RemoveFirstAppendAbsent(xs: seq<NodeId>, ys: seq<NodeId>, x: NodeId)
    requires x !in ys
    ensures RemoveFirst(xs + ys, x) == RemoveFirst(xs, x) + ys
  {
    var i := FirstIndex(xs, x);
    var j := FirstIndex(xs + ys, x);
    if x in xs {
      assert i < |xs| && (xs + ys)[i] == x;
      assert j == i;
      assert (xs + ys)[..i] == xs[..i];
      assert (xs + ys)[i + 1..] == xs[i + 1..] + ys;
    } else {
      assert x !in xs + ys;
    }
  }

  lemma {:induction false} RemoveAllAppendAbsent(xs: seq<NodeId>, ys: seq<NodeId>, ns: seq<NodeId>)
    requires forall n :: n in ns ==> n !in ys
    ensures RemoveAll(xs + ys, ns) == RemoveAll(xs, ns) + ys
    decreases |ns|
  {
    if |ns| > 0 {
      RemoveFirstAppendAbsent(xs, ys, ns[0]);
      RemoveAllAppendAbsent(RemoveFirst(xs, ns[0]), ys, ns[1..]);
    }
  }

  lemma AddChildFrame(s: Doc, p: NodeId, ns: seq<NodeId>)
    requires p in s && HasList(s[p].kind) && Movable(s, ns) && |ns| > 0
    ensures KeepsOthers(s, AddChild(s, p, ns[0]), ns[0])
    ensures Movable(AddChild(s, p, ns[0]), ns[1..])
  {
    DetachFrame(s, ns[0]);
    MovableStep(s, AddChild(s, p, ns[0]), ns[0], ns[1..]);
  }

  /** ChildrenNode.addChildren: addChild for each node, in order. */
  function AddChildren(s: Doc, p: NodeId, ns: seq<NodeId>): (t: Doc)
    requires p in s && HasList(s[p].kind) && Movable(s, ns)
    ensures t.Keys == s.Keys
    decreases |ns|
  {
    if |ns| == 0 then s
    else
      AddChildFrame(s, p, ns);
      AddChildren(AddChild(s, p, ns[0]), p, ns[1..])
  }

  /** addChild where the node's parent lists no duplicates and no other list holds it. */
  lemma AppendStep(s: Doc, p: NodeId, n: NodeId)
    requires ChildrenPointBack(s) && ListsDistinct(s)
    requires p in s && HasList(s[p].kind) && n in s && s[n].parent != Some(n)
    requires s[n].parent.Some? ==> Attached(s, n)
    ensures AppendedTo(s, AddChild(s, p, n), p, n)
    ensures ChildrenPointBack(AddChild(s, p, n)) && ListsDistinct(AddChild(s, p, n))
  {
    DetachStep(s, n);
    DetachedThenAppended(s, DetachIfAttached(s, n), p, n);
    AppendedDown(s, AddChild(s, p, n), p, n);
  }

  lemma AppendedList(a: seq<NodeId>, n: NodeId, rest: seq<NodeId>)
    requires n !in rest
    ensures RemoveAll(a + [n], rest) + rest == RemoveAll(a, rest) + ([n] + rest)
  {
    RemoveAllAppendAbsent(a, [n], rest);
  }

  lemma AppendedCompose(s: Doc, u: Doc, t: Doc, p: NodeId, n: NodeId, rest: seq<NodeId>)
    requires n !in rest && p in s && AppendedTo(s, u, p, n)
    requires MovedTo(u, t, p, rest, RemoveAll(u[p].children, rest) + rest)
    ensures MovedTo(s, t, p, [n] + rest, RemoveAll(s[p].children, [n] + rest) + ([n] + rest))
  {
    var a := RemoveFirst(s[p].children, n);
    AppendedList(a, n, rest);
    assert ([n] + rest)[1..] == rest;
    assert RemoveAll(s[p].children, [n] + rest) == RemoveAll(a, rest);
  }

  /** One turn of addChildren's loop keeps what the next turn needs. */
  lemma AddChildStep(s: Doc, p: NodeId, ns: seq<NodeId>)
    requires ChildrenPointBack(s) && ListsDistinct(s)
    requires p in s && HasList(s[p].kind) && Movable(s, ns) && NoDup(ns) && p !in ns && |ns| > 0
    requires forall n :: n in ns ==> s[n].parent != Some(n)
    ensures ns[0] !in ns[1..] && AppendedTo(s, AddChild(s, p, ns[0]), p, ns[0])
    ensures var u := AddChild(s, p, ns[0]);
      && ChildrenPointBack(u) && ListsDistinct(u)
      && p in u && HasList(u[p].kind) && Movable(u, ns[1..]) && NoDup(ns[1..]) && p !in ns[1..]
      && forall n :: n in ns[1..] ==> u[n].parent != Some(n)
  {
    var n := ns[0];
    AppendStep(s, p, n);
    AddChildFrame(s, p, ns);
    assert n !in ns[1..] by {
      forall j | 1 <= j < |ns|
        ensures ns[j] != n
      {
      }
    }
    assert NoDup(ns[1..]) by {
      forall i, j | 0 <= i < j < |ns[1..]|
        ensures ns[1..][i] != ns[1..][j]
      {
        assert ns[1..][i] == ns[i + 1] && ns[1..][j] == ns[j + 1];
      }
    }
  }

  /** addChildren moves the nodes to the end of p's list, in the given order. */
  lemma {:induction false} AddChildrenSpec(s: Doc, p: NodeId, ns: seq<NodeId>)
    requires ChildrenPointBack(s) && ListsDistinct(s)
    requires p in s && HasList(s[p].kind) && Movable(s, ns) && NoDup(ns) && p !in ns
    requires forall n :: n in ns ==> s[n].parent != Some(n)
    ensures MovedTo(s, AddChildren(s, p, ns), p, ns, RemoveAll(s[p].children, ns) + ns)
    decreases |ns|
  {
    if |ns| == 0 {
      assert RemoveAll(s[p].children, ns) + ns == s[p].children;
    } else {
      var n, rest := ns[0], ns[1..];
      var u := AddChild(s, p, n);
      AddChildStep(s, p, ns);
      AddChildrenSpec(u, p, rest);
      assert AddChildren(s, p, ns) == AddChildren(u, p, rest);
      AppendedCompose(s, u, AddChildren(s, p, ns), p, n, rest);
      assert ns == [n] + rest;
    }
  }

  lemma AppendAsSplice(ds: seq<NodeId>, ns: seq<NodeId>)
    ensures ds[..|ds|] + ns + ds[|ds|..] == ds + ns
  {
    assert ds[..|ds|] == ds;
    assert ds[|ds|..] == [];
  }

  /** addChildren keeps the document valid when none of the nodes is p or above it. */
  lemma AddChildrenValid(s: Doc, p: NodeId, ns: seq<NodeId>)
    requires DocValid(s) && CanMove(s, p, ns)
    ensures Movable(s, ns) && DocValid(AddChildren(s, p, ns))
  {
    DocValidMovable(s, ns);
    DocValidLinked(s);
    var d := DetachAll(s, ns);
    var ds := d[p].children;
    var k := |ds|;
    DetachAllReady(s, p, ns, k);
    AddChildrenSpec(s, p, ns);
    AppendAsSplice(ds, ns);
    LinkMoved(s, d, p, ns, k);
    MovedUnique(s, AddChildren(s, p, ns), Link(d, p, ns, k), p, ns, ds + ns);
    LinkDocValid(d, p, ns, k);
  }

  // --------------------------------------------------------- detachChildren

  /** ChildrenNode.detachChildren: the list is emptied, then each former child forgets its parent. */
  function DetachChildren(s: Doc, p: NodeId): (r: (Doc, seq<NodeId>))
    requires p in s && HasList(s[p].kind) && forall c :: c in s[p].children ==> c in s
    ensures r.0.Keys == s.Keys && r.1 == s[p].children
  {
    var cs := s[p].children;
    (SetParents(SetChildren(s, p, []), cs, None), cs)
  }

  /**
   * CollectionNode.detachChildren: detach for every child, in order. detach
   * needs a parent, and a second detach of a repeated entry would find
   * none, hence the requirements.
   */
  function CollDetachChildren(s: Doc, p: NodeId): (r: (Doc, seq<NodeId>))
    requires p in s && s[p].kind.CollectionE? && NoDup(s[p].children)
    requires forall c :: c in s[p].children ==> Attached(s, c)
    ensures r.0.Keys == s.Keys && r.1 == s[p].children
  {
    assert Movable(s, s[p].children) by {
      forall c | c in s[p].children
        ensures c in s && (s[c].parent.Some? ==> Attached(s, c))
      {
        assert Attached(s, c);
      }
    }
    (DetachAll(s, s[p].children), s[p].children)
  }

  lemma DetachedUnique(s: Doc, t1: Doc, t2: Doc, ns: seq<NodeId>)
    requires DetachedAll(s, t1, ns) && DetachedAll(s, t2, ns)
    ensures t1 == t2
  {
    forall m | m in t1
      ensures t1[m] == t2[m]
    {
    }
  }

  /** Detaching the children of p empties p's list and changes no other list. */
  lemma DetachListed(s: Doc, p: NodeId)
    requires DocValid(s) && p in s
    ensures Movable(s, s[p].children)
    ensures DetachedAll(s, DetachAll(s, s[p].children), s[p].children)
    ensures DocValid(DetachAll(s, s[p].children))
    ensures DetachAll(s, s[p].children)[p].children == []
    ensures forall m :: m in s && m != p ==> DetachAll(s, s[p].children)[m].children == s[m].children
  {
    var cs := s[p].children;
    forall c | c in cs
      ensures c in s && s[c].parent == Some(p) && c != p
    {
      ChildDepth(s, p, c);
      ListedByParent(s, p, c);
    }
    DocValidMovable(s, cs);
    DocValidLinked(s);
    DetachAllSpec(s, cs);
    DetachAllValid(s, cs, p, p);
    RemoveAllDistinct(cs, cs);
    assert RemoveAll(cs, cs) == [] by {
      if |RemoveAll(cs, cs)| > 0 {
        assert RemoveAll(cs, cs)[0] in RemoveAll(cs, cs);
      }
    }
    forall m | m in s && m != p
      ensures RemoveAll(s[m].children, cs) == s[m].children
    {
      forall c | c in cs
        ensures c !in s[m].children
      {
        if c in s[m].children {
          ListedByParent(s, m, c);
        }
      }
      RemoveAllAbsent(s[m].children, cs);
    }
  }

  /** detachChildren returns the children in order, empties the list, and unparents each. */
  lemma DetachChildrenSpec(s: Doc, p: NodeId)
    requires DocValid(s) && p in s && HasList(s[p].kind)
    ensures forall c :: c in s[p].children ==> c in s
    ensures var (t, r) := DetachChildren(s, p);
      && r == s[p].children && t[p].children == []
      && (forall c :: c in r ==> t[c].parent.None?)
      && (forall m :: m in s && m != p ==> t[m].children == s[m].children)
      && DocValid(t)
  {
    DetachListed(s, p);
    DetachChildrenIsDetachAll(s, p);
  }

  lemma DetachChildrenIsDetachAll(s: Doc, p: NodeId)
    requires DocValid(s) && p in s && HasList(s[p].kind)
    ensures forall c :: c in s[p].children ==> c in s
    ensures Movable(s, s[p].children) && DetachChildren(s, p).0 == DetachAll(s, s[p].children)
  {
    DetachListed(s, p);
    var cs := s[p].children;
    var t := DetachChildren(s, p).0;
    var d := DetachAll(s, cs);
    assert p !in cs by {
      if p in cs {
        ChildDepth(s, p, p);
      }
    }
    forall m | m in s
      ensures t[m] == d[m]
    {
      SameRec(t[m], d[m]);
    }
  }

  lemma SameRec(a: Rec<Elem>, b: Rec<Elem>)
    requires a.kind == b.kind && a.parent == b.parent && a.children == b.children
    ensures a == b
  {
  }

  /** The collection form: the same effect when the links are consistent. */
  lemma CollDetachChildrenSpec(s: Doc, p: NodeId)
    requires DocValid(s) && p in s && s[p].kind.CollectionE?
    ensures NoDup(s[p].children) && forall c :: c in s[p].children ==> Attached(s, c)
    ensures var (t, r) := CollDetachChildren(s, p);
      && r == s[p].children && t[p].children == []
      && (forall c :: c in r ==> t[c].parent.None?)
      && (forall m :: m in s && m != p ==> t[m].children == s[m].children)
      && DocValid(t)
  {
    DocValidLinked(s);
    forall c | c in s[p].children
      ensures Attached(s, c)
    {
      ListedByParent(s, p, c);
    }
    DetachListed(s, p);
  }
}
