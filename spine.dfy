/**
 * The open path of a tree under construction: the nodes from a top node
 * down to the node that receives the next child, each the last child of
 * the one before. A builder appends only below the end of that path and
 * rewrites only the subtree of one of its nodes, so the preorder of every
 * node on the path changes only at its end.
 */
module Spine {
  import opened Prelude
  import opened Arena

  /** c is the last child of p. */
  ghost predicate LastChild<K>(s: Store<K>, p: NodeId, c: NodeId) {
    p in s && |s[p].children| > 0 && s[p].children[|s[p].children| - 1] == c
  }

  ghost predicate IsSpine<K>(s: Store<K>, chain: seq<NodeId>) {
    && |chain| > 0
    && (forall i :: 0 <= i < |chain| ==> chain[i] in s)
    && (forall i :: 0 < i < |chain| ==> LastChild(s, chain[i - 1], chain[i]))
  }

  /** The i-th node of a path that starts at a top lies at depth i. */
  lemma {:induction false} SpineDepth<K>(s: Store<K>, chain: seq<NodeId>, i: nat)
    requires Valid(s) && IsSpine(s, chain) && IsTop(s, chain[0]) && i < |chain|
    ensures Depth(s, chain[i]) == i
    decreases i
  {
    if i == 0 {
      TopDepth(s, chain[0]);
    } else {
      SpineDepth(s, chain, i - 1);
      assert LastChild(s, chain[i - 1], chain[i]);
      var cs := s[chain[i - 1]].children;
      assert chain[i] == cs[|cs| - 1];
      ChildDepth(s, chain[i - 1], chain[i]);
    }
  }

  /** A path through the tree visits each node once, and each node's parent is the one before it. */
  lemma SpineLinks<K>(s: Store<K>, chain: seq<NodeId>)
    requires Valid(s) && IsSpine(s, chain) && IsTop(s, chain[0])
    ensures NoDup(chain)
    ensures forall i :: 0 < i < |chain| ==> s[chain[i]].parent == Some(chain[i - 1])
  {
    forall i, j | 0 <= i < j < |chain|
      ensures chain[i] != chain[j]
    {
      SpineDepth(s, chain, i);
      SpineDepth(s, chain, j);
    }
    forall i | 0 < i < |chain|
      ensures s[chain[i]].parent == Some(chain[i - 1])
    {
      assert LastChild(s, chain[i - 1], chain[i]);
      var cs := s[chain[i - 1]].children;
      assert chain[i] == cs[|cs| - 1];
      ChildDepth(s, chain[i - 1], chain[i]);
    }
  }

  /** A path whose nodes keep their shape in t is a path in t, and so is each of its prefixes. */
  lemma SameShapeSpine<K>(s: Store<K>, t: Store<K>, chain: seq<NodeId>, k: nat)
    requires IsSpine(s, chain) && SameShape(s, t) && 0 < k <= |chain|
    ensures IsSpine(t, chain[..k])
  {
    forall i | 0 < i < k
      ensures LastChild(t, chain[..k][i - 1], chain[..k][i])
    {
      assert LastChild(s, chain[i - 1], chain[i]);
    }
  }

  /**
   * Appending w to the children of the path's last node keeps the path,
   * and the path extended by w is one too.
   */
  lemma SpineAppend<K>(s: Store<K>, t: Store<K>, chain: seq<NodeId>, w: NodeId)
    requires IsSpine(s, chain) && NoDup(chain) && w in t
    requires chain[|chain| - 1] in t
    requires t[chain[|chain| - 1]].children == s[chain[|chain| - 1]].children + [w]
    requires forall i :: 0 <= i < |chain| - 1 ==> chain[i] in t && t[chain[i]].children == s[chain[i]].children
    ensures IsSpine(t, chain) && IsSpine(t, chain + [w])
  {
    var last := |chain| - 1;
    forall i | 0 < i < |chain|
      ensures LastChild(t, chain[i - 1], chain[i])
    {
      assert LastChild(s, chain[i - 1], chain[i]);
    }
    assert LastChild(t, chain[last], w);
    var c := chain + [w];
    forall i | 0 < i < |c|
      ensures LastChild(t, c[i - 1], c[i])
    {
      if i < |chain| {
        assert c[i - 1] == chain[i - 1] && c[i] == chain[i];
      }
    }
  }

  /** A member of a child's subtree is a member of the parent's. */
  lemma ChildPreorder<K>(s: Store<K>, x: NodeId, j: nat, m: NodeId)
    requires Valid(s) && x in s && j < |s[x].children|
    requires s[x].children[j] in s && m in Preorder(s, s[x].children[j])
    ensures m in Preorder(s, x)
  {
    PreorderBelowMember(s, x, s[x].children, m);
  }

  /** Subtrees nest: a member of the subtree of a member of x's subtree is in x's subtree. */
  lemma {:induction false} PreorderTrans<K>(s: Store<K>, x: NodeId, y: NodeId, m: NodeId)
    requires Valid(s) && x in s && y in Preorder(s, x) && m in Preorder(s, y)
    ensures m in Preorder(s, x)
    decreases Bound(s) - Depth(s, x)
  {
    if y != x {
      var cs := s[x].children;
      PreorderBelowMember(s, x, cs, y);
      var j :| 0 <= j < |cs| && y in Preorder(s, cs[j]);
      ChildDepth(s, x, cs[j]);
      PreorderTrans(s, cs[j], y, m);
      ChildPreorder(s, x, j, m);
    }
  }

  /** A later node of the path lies in the subtree of an earlier one. */
  lemma {:induction false} SpineBelow<K>(s: Store<K>, chain: seq<NodeId>, i: nat, j: nat)
    requires Valid(s) && IsSpine(s, chain) && i <= j < |chain|
    ensures chain[j] in Preorder(s, chain[i])
    decreases j - i
  {
    if i < j {
      SpineBelow(s, chain, i + 1, j);
      assert LastChild(s, chain[i], chain[i + 1]);
      var cs := s[chain[i]].children;
      assert cs[|cs| - 1] == chain[i + 1];
      ChildPreorder(s, chain[i], |cs| - 1, chain[j]);
    }
  }

  /** The children of x other than its last. */
  ghost function Before<K>(s: Store<K>, x: NodeId): seq<NodeId>
    requires x in s && |s[x].children| > 0
  {
    s[x].children[..|s[x].children| - 1]
  }

  /**
   * The subtrees of the earlier siblings of the path's next node do not
   * reach the subtree of any later node of the path.
   */
  lemma SpineAside<K>(s: Store<K>, chain: seq<NodeId>, i: nat, k: nat, m: NodeId)
    requires Valid(s) && IsSpine(s, chain) && i < k < |chain|
    requires LastChild(s, chain[i], chain[i + 1])
    requires ChildrenOf(s, chain[i], Before(s, chain[i]))
    requires m in PreorderBelow(s, chain[i], Before(s, chain[i]))
    ensures m !in Preorder(s, chain[k])
  {
    var x, c := chain[i], chain[i + 1];
    var cs := s[x].children;
    var init := Before(s, x);
    if m in Preorder(s, chain[k]) {
      SpineBelow(s, chain, i + 1, k);
      PreorderTrans(s, c, chain[k], m);
      PreorderBelowMember(s, x, init, m);
      var j :| 0 <= j < |init| && m in Preorder(s, init[j]);
      assert init[j] == cs[j] && c == cs[|cs| - 1];
      ChildDepth(s, x, init[j]);
      ChildDepth(s, x, c);
      SameDepthAncestor(s, init[j], c, m);
      assert false;
    }
  }

  /** The preorder below x, split before its last child. */
  lemma PreorderSplitLast<K>(s: Store<K>, x: NodeId)
    requires Valid(s) && x in s && |s[x].children| > 0
    ensures ChildrenOf(s, x, Before(s, x))
    ensures var cs := s[x].children;
      Preorder(s, x) == [x] + PreorderBelow(s, x, Before(s, x)) + Preorder(s, cs[|cs| - 1])
  {
    var cs := s[x].children;
    var c := cs[|cs| - 1];
    assert cs == Before(s, x) + [c];
    ChildDepth(s, x, c);
    PreorderBelowAppend(s, x, Before(s, x), [c]);
    assert PreorderBelow(s, x, [c]) == Preorder(s, c) + PreorderBelow(s, x, []);
  }

  /** Outside the subtree of o, every node keeps its children. */
  ghost predicate SameOutside<K>(s: Store<K>, t: Store<K>, o: NodeId)
    requires Valid(s) && o in s
  {
    forall m :: m in s && m !in Preorder(s, o) ==> m in t && t[m].children == s[m].children
  }

  /** Below an earlier node of the path, the subtrees before the path's next node are untouched. */
  lemma SpineBeforeFrame<K>(s: Store<K>, t: Store<K>, chain: seq<NodeId>, k: nat, i: nat)
    requires Valid(s) && Valid(t) && IsSpine(s, chain) && IsTop(s, chain[0]) && i < k < |chain|
    requires SameOutside(s, t, chain[k])
    ensures chain[i] in t && |s[chain[i]].children| > 0 && t[chain[i]].children == s[chain[i]].children
    ensures ChildrenOf(s, chain[i], Before(s, chain[i])) && ChildrenOf(t, chain[i], Before(s, chain[i]))
    ensures PreorderBelow(t, chain[i], Before(s, chain[i])) == PreorderBelow(s, chain[i], Before(s, chain[i]))
  {
    var x := chain[i];
    assert LastChild(s, x, chain[i + 1]);
    SpineDepth(s, chain, i);
    SpineDepth(s, chain, k);
    if x in Preorder(s, chain[k]) {
      PreorderMember(s, chain[k], x);
    }
    var init := Before(s, x);
    PreorderSplitLast(s, x);
    forall m | m in PreorderBelow(s, x, init)
      ensures m in t && t[m].children == s[m].children
    {
      SpineAside(s, chain, i, k, m);
    }
    PreorderBelowFrame(s, t, x, init);
  }

  /** One step up the path. */
  lemma SpineStep<K>(s: Store<K>, t: Store<K>, chain: seq<NodeId>, k: nat, delta: seq<NodeId>, i: nat)
    requires Valid(s) && Valid(t) && IsSpine(s, chain) && IsTop(s, chain[0]) && i < k < |chain|
    requires SameOutside(s, t, chain[k])
    requires chain[i + 1] in t && Preorder(t, chain[i + 1]) == Preorder(s, chain[i + 1]) + delta
    ensures chain[i] in t && Preorder(t, chain[i]) == Preorder(s, chain[i]) + delta
  {
    var x, c := chain[i], chain[i + 1];
    SpineBeforeFrame(s, t, chain, k, i);
    assert LastChild(s, x, c);
    var init := Before(s, x);
    PreorderSplitLast(s, x);
    PreorderSplitLast(t, x);
    assert Before(t, x) == init;
  }

  /**
   * If the subtree of the k-th node of the path gains delta at its end and
   * nothing outside it changes its children, every earlier node of the
   * path gains delta at the end of its subtree too.
   */
  lemma {:induction false} SpinePreorder<K>(s: Store<K>, t: Store<K>, chain: seq<NodeId>, k: nat, delta: seq<NodeId>, i: nat)
    requires Valid(s) && Valid(t) && IsSpine(s, chain) && IsTop(s, chain[0]) && i <= k < |chain|
    requires chain[k] in t && Preorder(t, chain[k]) == Preorder(s, chain[k]) + delta
    requires SameOutside(s, t, chain[k])
    ensures chain[i] in t && Preorder(t, chain[i]) == Preorder(s, chain[i]) + delta
    decreases k - i
  {
    if i < k {
      SpinePreorder(s, t, chain, k, delta, i + 1);
      SpineStep(s, t, chain, k, delta, i);
    }
  }

  /**
   * Appending a new leaf w to p's list, with nothing else changing its
   * children, puts w at the end of p's subtree.
   */
  lemma AppendLeafPreorder<K>(s: Store<K>, t: Store<K>, p: NodeId, w: NodeId)
    requires Valid(s) && Valid(t) && p in s && w !in s && w in t && t[w].children == []
    requires p in t && t[p].children == s[p].children + [w]
    requires forall m :: m in s && m != p ==> m in t && t[m].children == s[m].children
    ensures Preorder(t, p) == Preorder(s, p) + [w]
  {
    var cs := s[p].children;
    forall m | m in PreorderBelow(s, p, cs)
      ensures m in t && t[m].children == s[m].children
    {
      PreorderBelowMember(s, p, cs, m);
      var j :| 0 <= j < |cs| && m in Preorder(s, cs[j]);
      ChildDepth(s, p, cs[j]);
      PreorderMember(s, cs[j], m);
    }
    PreorderBelowFrame(s, t, p, cs);
    ChildDepth(t, p, w);
    PreorderBelowAppend(t, p, cs, [w]);
    assert PreorderBelow(t, p, [w]) == Preorder(t, w) + PreorderBelow(t, p, []);
    assert Preorder(t, w) == [w] + PreorderBelow(t, w, []);
  }

  // ------------------------------------------------------------ kind edits

  /** The same nodes with the same links; only kinds may differ. */
  ghost predicate SameShape<K>(s: Store<K>, t: Store<K>) {
    t.Keys == s.Keys && forall m :: m in s ==> t[m].parent == s[m].parent && t[m].children == s[m].children
  }

  lemma {:induction false} SameShapeDepthF<K>(s: Store<K>, t: Store<K>, n: NodeId, f: nat)
    requires ParentsIn(s) && SameShape(s, t) && n in s
    ensures ParentsIn(t) && DepthF(t, n, f) == DepthF(s, n, f)
    decreases f
  {
    if !IsTop(s, n) && f > 0 {
      SameShapeDepthF(s, t, s[n].parent.value, f - 1);
    }
  }

  /** Changing kinds only keeps a store valid and every subtree's preorder. */
  lemma SameShapeValid<K>(s: Store<K>, t: Store<K>)
    requires Valid(s) && SameShape(s, t)
    ensures Valid(t)
    ensures forall x :: x in s ==> Preorder(t, x) == Preorder(s, x)
  {
    forall n | n in t
      ensures Rooted(t, n)
    {
      var f: nat :| DepthF(s, n, f).Some?;
      SameShapeDepthF(s, t, n, f);
    }
    forall x | x in s
      ensures Preorder(t, x) == Preorder(s, x)
    {
      PreorderFrame(s, t, x);
    }
  }
}
