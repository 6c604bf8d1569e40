/**
 * The node heap both generations work on, as a map from node identities to
 * records holding a kind, a parent link and an ordered list of children.
 * Valid says the links agree and every parent chain ends: at a node without
 * a parent or at a node that is its own parent (the newer root).
 */
module Arena {
  import opened Prelude

  type NodeId = nat

  datatype Rec<K> = Rec(kind: K, parent: Option<NodeId>, children: seq<NodeId>)

  type Store<K> = map<NodeId, Rec<K>>

  ghost predicate ParentsIn<K>(s: Store<K>) {
    forall n :: n in s && s[n].parent.Some? ==> s[n].parent.value in s
  }

  predicate IsTop<K>(s: Store<K>, n: NodeId)
    requires n in s
  {
    s[n].parent.None? || s[n].parent.value == n
  }

  /** Length of n's parent chain, if it ends within `fuel` steps. */
  ghost function DepthF<K>(s: Store<K>, n: NodeId, fuel: nat): Option<nat>
    requires ParentsIn(s) && n in s
    decreases fuel
  {
    if IsTop(s, n) then Some(0)
    else if fuel == 0 then None
    else match DepthF(s, s[n].parent.value, fuel - 1)
      case None => None
      case Some(d) => Some(d + 1)
  }

  ghost predicate Rooted<K>(s: Store<K>, n: NodeId)
    requires ParentsIn(s) && n in s
  {
    exists f: nat :: DepthF(s, n, f).Some?
  }

  ghost predicate ChildLink<K>(s: Store<K>, n: NodeId, c: NodeId) {
    c in s && c != n && s[c].parent == Some(n)
  }

  ghost predicate Valid<K>(s: Store<K>) {
    && ParentsIn(s)
    && (forall n, i :: n in s && 0 <= i < |s[n].children| ==> ChildLink(s, n, s[n].children[i]))
    && (forall n :: n in s && s[n].parent.Some? && s[n].parent.value != n ==> n in s[s[n].parent.value].children)
    && (forall n :: n in s ==> NoDup(s[n].children))
    && (forall n :: n in s ==> Rooted(s, n))
  }

  ghost function Depth<K>(s: Store<K>, n: NodeId): nat
    requires Valid(s) && n in s
  {
    var f: nat :| DepthF(s, n, f).Some?;
    DepthF(s, n, f).value
  }

  lemma {:induction false} DepthFMono<K>(s: Store<K>, n: NodeId, f: nat, g: nat)
    requires ParentsIn(s) && n in s
    requires DepthF(s, n, f).Some? && f <= g
    ensures DepthF(s, n, g) == DepthF(s, n, f)
    decreases f
  {
    if !IsTop(s, n) {
      DepthFMono(s, s[n].parent.value, f - 1, g - 1);
    }
  }

  lemma DepthIs<K>(s: Store<K>, n: NodeId, f: nat)
    requires Valid(s) && n in s && DepthF(s, n, f).Some?
    ensures Depth(s, n) == DepthF(s, n, f).value
  {
    var g: nat :| DepthF(s, n, g).Some? && Depth(s, n) == DepthF(s, n, g).value;
    if f <= g {
      DepthFMono(s, n, f, g);
    } else {
      DepthFMono(s, n, g, f);
    }
  }

  lemma ParentDepth<K>(s: Store<K>, n: NodeId)
    requires Valid(s) && n in s && !IsTop(s, n)
    ensures Depth(s, n) == Depth(s, s[n].parent.value) + 1
  {
    var p := s[n].parent.value;
    var f: nat :| DepthF(s, p, f).Some?;
    DepthIs(s, p, f);
    DepthIs(s, n, f + 1);
  }

  lemma TopDepth<K>(s: Store<K>, n: NodeId)
    requires Valid(s) && n in s
    ensures IsTop(s, n) <==> Depth(s, n) == 0
  {
    var f: nat :| DepthF(s, n, f).Some?;
    DepthIs(s, n, f);
  }

  /** A child is one level below its parent. */
  lemma ChildDepth<K>(s: Store<K>, n: NodeId, c: NodeId)
    requires Valid(s) && n in s && c in s[n].children
    ensures ChildLink(s, n, c)
    ensures c in s && Depth(s, c) == Depth(s, n) + 1
  {
    var i :| 0 <= i < |s[n].children| && s[n].children[i] == c;
    assert ChildLink(s, n, s[n].children[i]);
    ParentDepth(s, c);
  }

  /** One more than the largest depth among ks. */
  ghost function BoundOver<K>(s: Store<K>, ks: set<NodeId>): (b: nat)
    requires Valid(s) && ks <= s.Keys
    ensures forall n :: n in ks ==> Depth(s, n) < b
    decreases ks
  {
    if ks == {} then 0
    else
      var k :| k in ks;
      var rest := BoundOver(s, ks - {k});
      if Depth(s, k) < rest then rest else Depth(s, k) + 1
  }

  /** A strict upper bound on all depths; recursion down the tree decreases Bound - Depth. */
  ghost function Bound<K>(s: Store<K>): (b: nat)
    requires Valid(s)
    ensures forall n :: n in s ==> Depth(s, n) < b
  {
    BoundOver(s, s.Keys)
  }

  ghost predicate ChildrenOf<K>(s: Store<K>, p: NodeId, cs: seq<NodeId>)
    requires p in s
  {
    forall c :: c in cs ==> c in s[p].children && c in s
  }

  // ------------------------------------------------------------------ preorder

  /** The nodes of the subtree at n, each before its descendants. */
  ghost function Preorder<K>(s: Store<K>, n: NodeId): (r: seq<NodeId>)
    requires Valid(s) && n in s
    ensures forall m :: m in r ==> m in s
    decreases Bound(s) - Depth(s, n), 1, 0
  {
    [n] + PreorderBelow(s, n, s[n].children)
  }

  /** The preorders of the listed children of p, one after the other. */
  ghost function PreorderBelow<K>(s: Store<K>, p: NodeId, cs: seq<NodeId>): (r: seq<NodeId>)
    requires Valid(s) && p in s && ChildrenOf(s, p, cs)
    ensures forall m :: m in r ==> m in s
    decreases Bound(s) - Depth(s, p), 0, |cs|
  {
    if |cs| == 0 then []
    else
      ChildDepth(s, p, cs[0]);
      Preorder(s, cs[0]) + PreorderBelow(s, p, cs[1..])
  }

  lemma {:induction false} PreorderBelowAppend<K>(s: Store<K>, p: NodeId, xs: seq<NodeId>, ys: seq<NodeId>)
    requires Valid(s) && p in s && ChildrenOf(s, p, xs) && ChildrenOf(s, p, ys)
    ensures PreorderBelow(s, p, xs + ys) == PreorderBelow(s, p, xs) + PreorderBelow(s, p, ys)
    decreases |xs|
  {
    if |xs| == 0 {
      assert xs + ys == ys;
    } else {
      assert (xs + ys)[1..] == xs[1..] + ys;
      PreorderBelowAppend(s, p, xs[1..], ys);
    }
  }

  /** Every node of PreorderBelow lies in the preorder of one listed child. */
  lemma {:induction false} PreorderBelowMember<K>(s: Store<K>, p: NodeId, cs: seq<NodeId>, m: NodeId)
    requires Valid(s) && p in s && ChildrenOf(s, p, cs)
    ensures m in PreorderBelow(s, p, cs) <==> exists j :: 0 <= j < |cs| && m in Preorder(s, cs[j])
    decreases |cs|
  {
    if |cs| > 0 {
      PreorderBelowMember(s, p, cs[1..], m);
      if m in PreorderBelow(s, p, cs[1..]) {
        var j :| 0 <= j < |cs[1..]| && m in Preorder(s, cs[1..][j]);
        assert m in Preorder(s, cs[j + 1]);
      }
      if exists j :: 0 <= j < |cs| && m in Preorder(s, cs[j]) {
        var j :| 0 <= j < |cs| && m in Preorder(s, cs[j]);
        if j > 0 {
          assert cs[1..][j - 1] == cs[j];
        }
      }
    }
  }

  /**
   * A node of the subtree at x other than x sits deeper than x and its
   * parent is in the subtree too.
   */
  lemma {:induction false} PreorderMember<K>(s: Store<K>, x: NodeId, m: NodeId)
    requires Valid(s) && x in s && m in Preorder(s, x)
    ensures m in s && Depth(s, m) >= Depth(s, x)
    ensures m != x ==> !IsTop(s, m) && s[m].parent.value in Preorder(s, x) && Depth(s, m) > Depth(s, x)
    decreases Bound(s) - Depth(s, x)
  {
    if m != x {
      var cs := s[x].children;
      PreorderBelowMember(s, x, cs, m);
      var j :| 0 <= j < |cs| && m in Preorder(s, cs[j]);
      var c := cs[j];
      ChildDepth(s, x, c);
      PreorderMember(s, c, m);
      assert ChildLink(s, x, cs[j]);
      PreorderBelowMember(s, x, cs, s[m].parent.value);
      if m != c {
        ParentDepth(s, m);
      }
    }
  }

  /** Two nodes at the same depth whose subtrees share a node are equal. */
  lemma {:induction false} SameDepthAncestor<K>(s: Store<K>, a: NodeId, b: NodeId, m: NodeId)
    requires Valid(s) && a in s && b in s && Depth(s, a) == Depth(s, b)
    requires m in s && m in Preorder(s, a) && m in Preorder(s, b)
    ensures a == b
    decreases Depth(s, m)
  {
    PreorderMember(s, a, m);
    PreorderMember(s, b, m);
    if m != a && m != b {
      var q := s[m].parent.value;
      ParentDepth(s, m);
      SameDepthAncestor(s, a, b, q);
    }
  }

  lemma {:induction false} PreorderBelowDisjoint<K>(s: Store<K>, p: NodeId, cs: seq<NodeId>, m: NodeId)
    requires Valid(s) && p in s && ChildrenOf(s, p, cs) && |cs| > 0
    requires NoDup(cs)
    requires m in Preorder(s, cs[0])
    ensures m !in PreorderBelow(s, p, cs[1..])
  {
    if m in PreorderBelow(s, p, cs[1..]) {
      PreorderBelowMember(s, p, cs[1..], m);
      var j :| 0 <= j < |cs[1..]| && m in Preorder(s, cs[1..][j]);
      ChildDepth(s, p, cs[0]);
      ChildDepth(s, p, cs[j + 1]);
      SameDepthAncestor(s, cs[0], cs[j + 1], m);
      assert false;
    }
  }

  /** A subtree lists each node once. */
  lemma {:induction false} PreorderDistinct<K>(s: Store<K>, x: NodeId)
    requires Valid(s) && x in s
    ensures NoDup(Preorder(s, x))
    decreases Bound(s) - Depth(s, x), 1, 0
  {
    PreorderBelowDistinct(s, x, s[x].children);
    if x in PreorderBelow(s, x, s[x].children) {
      PreorderBelowMember(s, x, s[x].children, x);
      var j :| 0 <= j < |s[x].children| && x in Preorder(s, s[x].children[j]);
      ChildDepth(s, x, s[x].children[j]);
      PreorderMember(s, s[x].children[j], x);
      assert false;
    }
    NoDupAppend([x], PreorderBelow(s, x, s[x].children));
  }

  lemma {:induction false} PreorderBelowDistinct<K>(s: Store<K>, p: NodeId, cs: seq<NodeId>)
    requires Valid(s) && p in s && ChildrenOf(s, p, cs) && NoDup(cs)
    ensures NoDup(PreorderBelow(s, p, cs))
    decreases Bound(s) - Depth(s, p), 0, |cs|
  {
    if |cs| > 0 {
      ChildDepth(s, p, cs[0]);
      PreorderDistinct(s, cs[0]);
      assert NoDup(cs[1..]);
      PreorderBelowDistinct(s, p, cs[1..]);
      forall m | m in Preorder(s, cs[0])
        ensures m !in PreorderBelow(s, p, cs[1..])
      {
        PreorderBelowDisjoint(s, p, cs, m);
      }
      NoDupAppend(Preorder(s, cs[0]), PreorderBelow(s, p, cs[1..]));
    }
  }

  /**
   * A subtree's preorder depends only on the children lists of its own nodes.
   */
  lemma {:induction false} PreorderFrame<K>(s: Store<K>, t: Store<K>, x: NodeId)
    requires Valid(s) && Valid(t) && x in s
    requires forall m :: m in Preorder(s, x) ==> m in t && t[m].children == s[m].children
    ensures x in t && Preorder(t, x) == Preorder(s, x)
    decreases Bound(s) - Depth(s, x), 1, 0
  {
    PreorderBelowFrame(s, t, x, s[x].children);
  }

  lemma {:induction false} PreorderBelowFrame<K>(s: Store<K>, t: Store<K>, p: NodeId, cs: seq<NodeId>)
    requires Valid(s) && Valid(t) && p in s && ChildrenOf(s, p, cs)
    requires p in t && ChildrenOf(t, p, cs)
    requires forall m :: m in PreorderBelow(s, p, cs) ==> m in t && t[m].children == s[m].children
    ensures ChildrenOf(t, p, cs) && PreorderBelow(t, p, cs) == PreorderBelow(s, p, cs)
    decreases Bound(s) - Depth(s, p), 0, |cs|
  {
    if |cs| > 0 {
      ChildDepth(s, p, cs[0]);
      PreorderBelowFrame(s, t, p, cs[1..]);
      PreorderFrame(s, t, cs[0]);
    }
  }

  // ------------------------------------------------------------ re-parenting

  /**
   * t moves parent links only towards the roots of s: every node that is not
   * a top in t has a parent strictly shallower, in s, than itself.
   */
  ghost predicate Lifted<K>(s: Store<K>, t: Store<K>)
    requires Valid(s) && ParentsIn(t) && t.Keys == s.Keys
  {
    forall x :: x in t && !IsTop(t, x) ==> Depth(s, t[x].parent.value) < Depth(s, x)
  }

  /** Lifted parent links keep every chain finite. */
  lemma {:induction false} LiftedRooted<K>(s: Store<K>, t: Store<K>, m: NodeId)
    requires Valid(s) && ParentsIn(t) && t.Keys == s.Keys && Lifted(s, t) && m in t
    ensures Rooted(t, m)
    decreases Depth(s, m)
  {
    if IsTop(t, m) {
      assert DepthF(t, m, 0).Some?;
    } else {
      var a := t[m].parent.value;
      LiftedRooted(s, t, a);
      var f: nat :| DepthF(t, a, f).Some?;
      assert DepthF(t, m, f + 1).Some?;
    }
  }
}
