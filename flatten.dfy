/**
 * Flattening, the error recovery both tree builders run when a close tag
 * resolves to an element: the descendants of still-open elements below it
 * are promoted to its direct children, in document order, and the open
 * elements lose their children. Here it is stated once for any kind of node
 * and any test of "still open", and shown to keep the links valid and the
 * preorder of the subtree unchanged.
 */
module Flatten {
  import opened Prelude
  import opened Arena

  /**
   * What getOpenChildren collects from the listed children of p: each
   * child, followed by what it collects itself when it is open.
   */
  function FlatBelow<K>(s: Store<K>, p: NodeId, cs: seq<NodeId>, open: K -> bool): seq<NodeId>
    requires Valid(s) && p in s && ChildrenOf(s, p, cs)
    decreases Bound(s) - Depth(s, p), |cs|
  {
    if |cs| == 0 then []
    else
      var c := cs[0];
      ChildDepth(s, p, c);
      [c] + (if open(s[c].kind) then FlatBelow(s, c, s[c].children, open) else []) + FlatBelow(s, p, cs[1..], open)
  }

  /** n listing flat, whose members point at n and, when open, list nothing. */
  function Regrouped<K>(s: Store<K>, n: NodeId, flat: seq<NodeId>, open: K -> bool): Store<K> {
    map m | m in s ::
      if m == n then s[m].(children := flat)
      else if m in flat then Rec(s[m].kind, Some(n), if open(s[m].kind) then [] else s[m].children)
      else s[m]
  }

  /** The store after flattening below n. */
  function Flattened<K>(s: Store<K>, n: NodeId, open: K -> bool): Store<K>
    requires Valid(s) && n in s
  {
    Regrouped(s, n, FlatBelow(s, n, s[n].children, open), open)
  }

  lemma DeeperBelow<K>(s: Store<K>, p: NodeId, cs: seq<NodeId>, m: NodeId)
    requires Valid(s) && p in s && ChildrenOf(s, p, cs) && m in PreorderBelow(s, p, cs)
    ensures m in s && Depth(s, m) > Depth(s, p)
  {
    PreorderBelowMember(s, p, cs, m);
    var j :| 0 <= j < |cs| && m in Preorder(s, cs[j]);
    ChildDepth(s, p, cs[j]);
    PreorderMember(s, cs[j], m);
  }

  /** Everything collected lies in the subtrees of the listed children. */
  lemma {:induction false} FlatSub<K>(s: Store<K>, p: NodeId, cs: seq<NodeId>, open: K -> bool, m: NodeId)
    requires Valid(s) && p in s && ChildrenOf(s, p, cs)
    requires m in FlatBelow(s, p, cs, open)
    ensures m in PreorderBelow(s, p, cs)
    decreases Bound(s) - Depth(s, p), |cs|
  {
    var c := cs[0];
    ChildDepth(s, p, c);
    if m == c {
    } else if open(s[c].kind) && m in FlatBelow(s, c, s[c].children, open) {
      FlatSub(s, c, s[c].children, open, m);
    } else {
      FlatSub(s, p, cs[1..], open, m);
    }
  }

  lemma FlatDeeper<K>(s: Store<K>, p: NodeId, cs: seq<NodeId>, open: K -> bool, m: NodeId)
    requires Valid(s) && p in s && ChildrenOf(s, p, cs)
    requires m in FlatBelow(s, p, cs, open)
    ensures m in s && m != p && Depth(s, m) > Depth(s, p)
  {
    FlatSub(s, p, cs, open, m);
    DeeperBelow(s, p, cs, m);
  }

  /** A collected node is listed, or its parent is a collected open node. */
  lemma {:induction false} FlatParent<K>(s: Store<K>, p: NodeId, cs: seq<NodeId>, open: K -> bool, m: NodeId)
    requires Valid(s) && p in s && ChildrenOf(s, p, cs)
    requires m in FlatBelow(s, p, cs, open)
    ensures m in s
    ensures m in cs || (!IsTop(s, m) && s[m].parent.value in FlatBelow(s, p, cs, open)
                        && open(s[s[m].parent.value].kind))
    decreases Bound(s) - Depth(s, p), |cs|
  {
    var c := cs[0];
    ChildDepth(s, p, c);
    var F := FlatBelow(s, p, cs, open);
    if m == c {
    } else if open(s[c].kind) && m in FlatBelow(s, c, s[c].children, open) {
      FlatParent(s, c, s[c].children, open, m);
      if m in s[c].children {
        var i :| 0 <= i < |s[c].children| && s[c].children[i] == m;
        assert ChildLink(s, c, s[c].children[i]);
      }
    } else {
      FlatParent(s, p, cs[1..], open, m);
    }
  }

  /** The listed nodes are collected, and so are the children of collected open nodes. */
  lemma {:induction false} FlatClosed<K>(s: Store<K>, p: NodeId, cs: seq<NodeId>, open: K -> bool)
    requires Valid(s) && p in s && ChildrenOf(s, p, cs)
    ensures forall c :: c in cs ==> c in FlatBelow(s, p, cs, open)
    ensures forall y :: y in FlatBelow(s, p, cs, open) && y in s && open(s[y].kind) ==>
              forall c :: c in s[y].children ==> c in FlatBelow(s, p, cs, open)
    decreases Bound(s) - Depth(s, p), |cs|
  {
    if |cs| > 0 {
      var c := cs[0];
      ChildDepth(s, p, c);
      FlatClosed(s, p, cs[1..], open);
      if open(s[c].kind) {
        FlatClosed(s, c, s[c].children, open);
      }
    }
  }

  /** Nothing is collected twice. */
  lemma {:induction false} FlatDistinct<K>(s: Store<K>, p: NodeId, cs: seq<NodeId>, open: K -> bool)
    requires Valid(s) && p in s && ChildrenOf(s, p, cs) && NoDup(cs)
    ensures NoDup(FlatBelow(s, p, cs, open))
    decreases Bound(s) - Depth(s, p), |cs|
  {
    if |cs| > 0 {
      var c := cs[0];
      ChildDepth(s, p, c);
      var Y := if open(s[c].kind) then FlatBelow(s, c, s[c].children, open) else [];
      var Z := FlatBelow(s, p, cs[1..], open);
      assert NoDup(cs[1..]);
      FlatDistinct(s, p, cs[1..], open);
      if open(s[c].kind) {
        FlatDistinct(s, c, s[c].children, open);
      }
      PreorderDistinct(s, c);
      forall m | m in Y
        ensures m in PreorderBelow(s, c, s[c].children)
      {
        FlatSub(s, c, s[c].children, open, m);
      }
      forall m | m in Z
        ensures m !in Preorder(s, c)
      {
        FlatSub(s, p, cs[1..], open, m);
        if m in Preorder(s, c) {
          PreorderBelowDisjoint(s, p, cs, m);
        }
      }
      if c in Y {
        DeeperBelow(s, c, s[c].children, c);
      }
      NoDupAppend([c], Y);
      NoDupAppend([c] + Y, Z);
    }
  }

  /** The nodes of a collected element that stays (is not open) are never collected. */
  lemma {:induction false} ClosedSubtreeUntouched<K>(s: Store<K>, n: NodeId, open: K -> bool, c: NodeId, m: NodeId)
    requires Valid(s) && n in s
    requires c in FlatBelow(s, n, s[n].children, open) && c in s && !open(s[c].kind)
    requires m in s && m in Preorder(s, c) && m != c
    ensures m !in FlatBelow(s, n, s[n].children, open) && m != n
    decreases Depth(s, m)
  {
    var F := FlatBelow(s, n, s[n].children, open);
    FlatDeeper(s, n, s[n].children, open, c);
    PreorderMember(s, c, m);
    var q := s[m].parent.value;
    ParentDepth(s, m);
    PreorderMember(s, c, q);
    if m in F {
      FlatParent(s, n, s[n].children, open, m);
      if q != c {
        ClosedSubtreeUntouched(s, n, open, c, q);
      }
      assert false;
    }
  }

  // ------------------------------------------------------- the new store

  /** Flattening below n leaves n's parent, and the parent of each child of n, as they were. */
  lemma FlattenedKeepsParent<K>(s: Store<K>, n: NodeId, m: NodeId, open: K -> bool)
    requires Valid(s) && n in s && m in s && (s[m].parent == Some(n) || m == n)
    ensures m in Flattened(s, n, open) && Flattened(s, n, open)[m].parent == s[m].parent
  {
  }

  lemma FlattenedShape<K>(s: Store<K>, n: NodeId, open: K -> bool)
    requires Valid(s) && n in s
    ensures var t := Flattened(s, n, open);
      && t.Keys == s.Keys && ParentsIn(t)
      && (forall m :: m in t ==> t[m].kind == s[m].kind)
      && t[n] == s[n].(children := FlatBelow(s, n, s[n].children, open))
  {
    var t := Flattened(s, n, open);
    var flat := FlatBelow(s, n, s[n].children, open);
    forall m | m in t
      ensures m in s && t[m].kind == s[m].kind
      ensures t[m].parent.Some? ==> t[m].parent.value in s
    {
      if m == n {
        assert t[m] == s[m].(children := flat);
      } else if m in flat {
        assert t[m] == Rec(s[m].kind, Some(n), if open(s[m].kind) then [] else s[m].children);
      } else {
        assert t[m] == s[m];
      }
    }
  }

  lemma FlattenedChildLink<K>(s: Store<K>, n: NodeId, open: K -> bool, m: NodeId, c: NodeId)
    requires Valid(s) && n in s && m in s
    requires c in Flattened(s, n, open)[m].children
    ensures ChildLink(Flattened(s, n, open), m, c)
  {
    var F := FlatBelow(s, n, s[n].children, open);
    if m == n {
      FlatDeeper(s, n, s[n].children, open, c);
    } else if m in F {
      FlatDeeper(s, n, s[n].children, open, m);
      ChildDepth(s, m, c);
      if c in F {
        FlatParent(s, n, s[n].children, open, c);
        if c in s[n].children {
          ChildDepth(s, n, c);
        }
      }
    } else {
      ChildDepth(s, m, c);
      if c in F {
        FlatParent(s, n, s[n].children, open, c);
        if c in s[n].children {
          ChildDepth(s, n, c);
        }
      }
    }
  }

  lemma FlattenedParentLink<K>(s: Store<K>, n: NodeId, open: K -> bool, x: NodeId)
    requires Valid(s) && n in s && x in s
    requires Flattened(s, n, open)[x].parent.Some? && Flattened(s, n, open)[x].parent.value != x
    ensures x in Flattened(s, n, open)[Flattened(s, n, open)[x].parent.value].children
  {
    var F := FlatBelow(s, n, s[n].children, open);
    FlatClosed(s, n, s[n].children, open);
    if x == n {
      var q := s[n].parent.value;
      ParentDepth(s, n);
      if q in F {
        FlatDeeper(s, n, s[n].children, open, q);
      }
    } else if x !in F {
      var q := s[x].parent.value;
      assert x in s[q].children;
    }
  }

  lemma FlattenedLifted<K>(s: Store<K>, n: NodeId, open: K -> bool)
    requires Valid(s) && n in s
    ensures Lifted(s, Flattened(s, n, open))
  {
    var t := Flattened(s, n, open);
    var F := FlatBelow(s, n, s[n].children, open);
    forall x | x in t && !IsTop(t, x)
      ensures Depth(s, t[x].parent.value) < Depth(s, x)
    {
      if x in F && x != n {
        FlatDeeper(s, n, s[n].children, open, x);
      } else {
        ParentDepth(s, x);
      }
    }
  }

  /** Flattening keeps the store valid. */
  lemma FlattenValid<K>(s: Store<K>, n: NodeId, open: K -> bool)
    requires Valid(s) && n in s
    ensures Valid(Flattened(s, n, open))
  {
    var t := Flattened(s, n, open);
    FlattenedShape(s, n, open);
    forall m, i | m in t && 0 <= i < |t[m].children|
      ensures ChildLink(t, m, t[m].children[i])
    {
      FlattenedChildLink(s, n, open, m, t[m].children[i]);
    }
    forall x | x in t && t[x].parent.Some? && t[x].parent.value != x
      ensures x in t[t[x].parent.value].children
    {
      FlattenedParentLink(s, n, open, x);
    }
    FlatDistinct(s, n, s[n].children, open);
    FlattenedLifted(s, n, open);
    forall m | m in t
      ensures Rooted(t, m)
    {
      LiftedRooted(s, t, m);
    }
  }

  // ------------------------------------------------------------ the preorder

  /** Collecting below n or below a collected open node stays within the collection of n. */
  lemma {:induction false} FlatInFlat<K>(s: Store<K>, n: NodeId, open: K -> bool, p: NodeId, cs: seq<NodeId>, m: NodeId)
    requires Valid(s) && n in s && p in s && ChildrenOf(s, p, cs)
    requires p == n || (p in FlatBelow(s, n, s[n].children, open) && open(s[p].kind))
    requires m in FlatBelow(s, p, cs, open)
    ensures m in FlatBelow(s, n, s[n].children, open)
    decreases Bound(s) - Depth(s, p), |cs|
  {
    var c := cs[0];
    ChildDepth(s, p, c);
    FlatClosed(s, n, s[n].children, open);
    if m == c {
    } else if open(s[c].kind) && m in FlatBelow(s, c, s[c].children, open) {
      FlatInFlat(s, n, open, c, s[c].children, m);
    } else {
      FlatInFlat(s, n, open, p, cs[1..], m);
    }
  }

  lemma FlatChildrenOfNew<K>(s: Store<K>, n: NodeId, open: K -> bool, p: NodeId, cs: seq<NodeId>)
    requires Valid(s) && n in s && p in s && ChildrenOf(s, p, cs)
    requires p == n || (p in FlatBelow(s, n, s[n].children, open) && open(s[p].kind))
    ensures ChildrenOf(Flattened(s, n, open), n, FlatBelow(s, p, cs, open))
  {
    forall m | m in FlatBelow(s, p, cs, open)
      ensures m in Flattened(s, n, open)[n].children && m in Flattened(s, n, open)
    {
      FlatInFlat(s, n, open, p, cs, m);
      FlatDeeper(s, n, s[n].children, open, m);
    }
  }

  /**
   * Below n in the new store, the preorder of what was collected from cs
   * equals the old preorder of cs: open nodes are now childless, and their
   * old descendants follow them as n's children.
   */
  lemma {:induction false} FlatPreorder<K>(s: Store<K>, n: NodeId, open: K -> bool, p: NodeId, cs: seq<NodeId>)
    requires Valid(s) && n in s && p in s && ChildrenOf(s, p, cs)
    requires p == n || (p in FlatBelow(s, n, s[n].children, open) && open(s[p].kind))
    ensures Valid(Flattened(s, n, open))
    ensures ChildrenOf(Flattened(s, n, open), n, FlatBelow(s, p, cs, open))
    ensures PreorderBelow(Flattened(s, n, open), n, FlatBelow(s, p, cs, open)) == PreorderBelow(s, p, cs)
    decreases Bound(s) - Depth(s, p), |cs|
  {
    var t := Flattened(s, n, open);
    FlattenValid(s, n, open);
    FlatChildrenOfNew(s, n, open, p, cs);
    if |cs| > 0 {
      var c := cs[0];
      ChildDepth(s, p, c);
      FlatClosed(s, n, s[n].children, open);
      FlatInFlat(s, n, open, p, cs, c);
      var H := [c] + (if open(s[c].kind) then FlatBelow(s, c, s[c].children, open) else []);
      var Z := FlatBelow(s, p, cs[1..], open);
      assert FlatBelow(s, p, cs, open) == H + Z;
      FlatPreorderHead(s, n, open, c);
      FlatPreorder(s, n, open, p, cs[1..]);
      PreorderBelowAppend(t, n, H, Z);
    }
  }

  /** The same for one collected node c and what is collected below it. */
  lemma {:induction false} FlatPreorderHead<K>(s: Store<K>, n: NodeId, open: K -> bool, c: NodeId)
    requires Valid(s) && n in s && c in s && c in FlatBelow(s, n, s[n].children, open)
    ensures Valid(Flattened(s, n, open))
    ensures var H := [c] + (if open(s[c].kind) then FlatBelow(s, c, s[c].children, open) else []);
      ChildrenOf(Flattened(s, n, open), n, H)
      && PreorderBelow(Flattened(s, n, open), n, H) == Preorder(s, c)
    decreases Bound(s) - Depth(s, c), |s[c].children| + 1
  {
    var t := Flattened(s, n, open);
    FlattenValid(s, n, open);
    FlatDeeper(s, n, s[n].children, open, c);
    var Y := if open(s[c].kind) then FlatBelow(s, c, s[c].children, open) else [];
    if open(s[c].kind) {
      FlatChildrenOfNew(s, n, open, c, s[c].children);
    }
    PreorderBelowAppend(t, n, [c], Y);
    assert PreorderBelow(t, n, [c]) == Preorder(t, c) by {
      assert [c][1..] == [];
    }
    if open(s[c].kind) {
      FlatPreorder(s, n, open, c, s[c].children);
      assert t[c].children == [];
      assert Preorder(t, c) == [c];
    } else {
      forall m | m in Preorder(s, c)
        ensures m in t && t[m].children == s[m].children
      {
        if m != c {
          ClosedSubtreeUntouched(s, n, open, c, m);
        }
      }
      PreorderFrame(s, t, c);
      assert PreorderBelow(t, n, Y) == [];
    }
  }

  /** Flattening below n leaves the preorder of n's subtree unchanged. */
  lemma FlattenPreservesPreorder<K>(s: Store<K>, n: NodeId, open: K -> bool)
    requires Valid(s) && n in s
    ensures Valid(Flattened(s, n, open))
    ensures Preorder(Flattened(s, n, open), n) == Preorder(s, n)
  {
    FlatPreorder(s, n, open, n, s[n].children);
  }
}
