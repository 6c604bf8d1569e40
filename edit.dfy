/**
 * The two link edits every tree operation of the newer generation is made
 * of: unlinking a node from its parent, and linking parentless nodes into
 * a parent's list of children at an index. Each keeps the store Valid, the
 * second as long as no linked node is an ancestor of the new parent.
 */
module Edit {
  import opened Prelude
  import opened Arena

  function SetParent<K>(s: Store<K>, n: NodeId, q: Option<NodeId>): (t: Store<K>)
    requires n in s
    ensures t.Keys == s.Keys
  {
    s[n := s[n].(parent := q)]
  }

  function SetChildren<K>(s: Store<K>, p: NodeId, cs: seq<NodeId>): (t: Store<K>)
    requires p in s
    ensures t.Keys == s.Keys
  {
    s[p := s[p].(children := cs)]
  }

  /** Points every listed node at q, in order; nothing else changes. */
  function SetParents<K>(s: Store<K>, ns: seq<NodeId>, q: Option<NodeId>): (t: Store<K>)
    requires forall n :: n in ns ==> n in s
    ensures t.Keys == s.Keys
    ensures forall m :: m in s && m in ns ==> t[m] == s[m].(parent := q)
    ensures forall m :: m in s && m !in ns ==> t[m] == s[m]
  {
    if |ns| == 0 then s
    else SetParent(SetParents(s, ns[..|ns| - 1], q), ns[|ns| - 1], q)
  }

  /** a is m or one of its ancestors. */
  ghost predicate AncOrSelf<K>(s: Store<K>, a: NodeId, m: NodeId)
    requires Valid(s) && m in s
    decreases Depth(s, m)
  {
    m == a || (!IsTop(s, m) && (ParentDepth(s, m); AncOrSelf(s, a, s[m].parent.value)))
  }

  lemma {:induction false} AncDepth<K>(s: Store<K>, a: NodeId, m: NodeId)
    requires Valid(s) && m in s && AncOrSelf(s, a, m)
    ensures a in s && Depth(s, a) <= Depth(s, m)
    ensures a != m ==> Depth(s, a) < Depth(s, m)
    decreases Depth(s, m)
  {
    if m != a {
      ParentDepth(s, m);
      AncDepth(s, a, s[m].parent.value);
    }
  }

  /** A child is never an ancestor of its parent. */
  lemma ChildNotAncestor<K>(s: Store<K>, p: NodeId, c: NodeId)
    requires Valid(s) && p in s && c in s[p].children
    ensures !AncOrSelf(s, c, p)
  {
    ChildDepth(s, p, c);
    if AncOrSelf(s, c, p) {
      AncDepth(s, c, p);
    }
  }

  /** Every non-top node of t has a parent of smaller rank. */
  ghost predicate Ranked<K>(t: Store<K>, rank: NodeId -> nat)
    requires ParentsIn(t)
  {
    forall x :: x in t && !IsTop(t, x) ==> rank(t[x].parent.value) < rank(x)
  }

  lemma {:induction false} RankedRooted<K>(t: Store<K>, rank: NodeId -> nat, m: NodeId)
    requires ParentsIn(t) && Ranked(t, rank) && m in t
    ensures Rooted(t, m)
    decreases rank(m)
  {
    if IsTop(t, m) {
      assert DepthF(t, m, 0).Some?;
    } else {
      var a := t[m].parent.value;
      RankedRooted(t, rank, a);
      var f: nat :| DepthF(t, a, f).Some?;
      assert DepthF(t, m, f + 1).Some?;
    }
  }

  lemma RemoveFirstDistinct<T>(xs: seq<T>, x: T)
    requires NoDup(xs)
    ensures NoDup(RemoveFirst(xs, x))
    ensures forall y :: y in RemoveFirst(xs, x) <==> y in xs && y != x
  {
    var i := FirstIndex(xs, x);
    if i < |xs| {
      var r := RemoveFirst(xs, x);
      assert r == xs[..i] + xs[i + 1..];
      forall y | y in xs && y != x
        ensures y in r
      {
        var j :| 0 <= j < |xs| && xs[j] == y;
        if j < i {
          assert r[j] == y;
        } else {
          assert j > i;
          assert r[j - 1] == y;
        }
      }
      forall y | y in r
        ensures y != x
      {
        var j :| 0 <= j < |r| && r[j] == y;
        if j < i {
          assert xs[j] == y;
        } else {
          assert xs[j + 1] == y;
        }
      }
      forall a, b | 0 <= a < b < |r|
        ensures r[a] != r[b]
      {
        var a1 := if a < i then a else a + 1;
        var b1 := if b < i then b else b + 1;
        assert r[a] == xs[a1] && r[b] == xs[b1];
      }
    }
  }

  /** n detached: out of its parent's list, and without a parent. */
  function Unlink<K>(s: Store<K>, n: NodeId): (t: Store<K>)
    requires n in s && s[n].parent.Some? && s[n].parent.value in s
    ensures t.Keys == s.Keys
  {
    var p := s[n].parent.value;
    SetParent(SetChildren(s, p, RemoveFirst(s[p].children, n)), n, None)
  }

  /** A node is listed only by its parent. */
  lemma ListedByParent<K>(s: Store<K>, m: NodeId, c: NodeId)
    requires Valid(s) && m in s && c in s[m].children
    ensures c in s && s[c].parent == Some(m)
  {
    ChildDepth(s, m, c);
  }

  /** t is s with the list of p, n's parent, replaced by cs, and n without a parent. */
  ghost predicate Unlinked<K>(s: Store<K>, t: Store<K>, n: NodeId, p: NodeId, cs: seq<NodeId>) {
    && t.Keys == s.Keys
    && (forall m :: m in s ==> t[m].parent == if m == n then None else s[m].parent)
    && (forall m :: m in s ==> t[m].children == if m == p then cs else s[m].children)
  }

  lemma UnlinkIs<K>(s: Store<K>, n: NodeId)
    requires n in s && s[n].parent.Some? && s[n].parent.value in s
    ensures Unlinked(s, Unlink(s, n), n, s[n].parent.value, RemoveFirst(s[s[n].parent.value].children, n))
  {
  }

  /** The list left behind holds the other children of p, once each. */
  ghost predicate Remaining<K>(s: Store<K>, n: NodeId, p: NodeId, cs: seq<NodeId>)
    requires p in s
  {
    NoDup(cs) && forall y :: y in cs <==> y in s[p].children && y != n
  }

  lemma UnlinkedChildLinks<K>(s: Store<K>, t: Store<K>, n: NodeId, p: NodeId, cs: seq<NodeId>)
    requires Valid(s) && n in s && s[n].parent == Some(p) && p in s
    requires Unlinked(s, t, n, p, cs) && Remaining(s, n, p, cs)
    ensures forall m, i :: m in t && 0 <= i < |t[m].children| ==> ChildLink(t, m, t[m].children[i])
  {
    forall m, i | m in t && 0 <= i < |t[m].children|
      ensures ChildLink(t, m, t[m].children[i])
    {
      var c := t[m].children[i];
      assert c in s[m].children;
      var j :| 0 <= j < |s[m].children| && s[m].children[j] == c;
      assert ChildLink(s, m, s[m].children[j]);
    }
  }

  lemma UnlinkedBackLinks<K>(s: Store<K>, t: Store<K>, n: NodeId, p: NodeId, cs: seq<NodeId>)
    requires Valid(s) && n in s && s[n].parent == Some(p) && p in s
    requires Unlinked(s, t, n, p, cs) && Remaining(s, n, p, cs)
    ensures ParentsIn(t)
    ensures forall m :: m in t && t[m].parent.Some? && t[m].parent.value != m ==> m in t[t[m].parent.value].children
    ensures forall m :: m in t ==> NoDup(t[m].children)
  {
    forall m | m in t && t[m].parent.Some? && t[m].parent.value != m
      ensures m in t[t[m].parent.value].children
    {
      assert m in s[s[m].parent.value].children;
    }
  }

  lemma UnlinkedRooted<K>(s: Store<K>, t: Store<K>, n: NodeId, p: NodeId, cs: seq<NodeId>)
    requires Valid(s) && n in s && s[n].parent == Some(p) && Unlinked(s, t, n, p, cs) && ParentsIn(t)
    ensures forall m :: m in t ==> Rooted(t, m)
  {
    assert Lifted(s, t) by {
      forall x | x in t && !IsTop(t, x)
        ensures Depth(s, t[x].parent.value) < Depth(s, x)
      {
        ParentDepth(s, x);
      }
    }
    forall m | m in t
      ensures Rooted(t, m)
    {
      LiftedRooted(s, t, m);
    }
  }

  lemma UnlinkValid<K>(s: Store<K>, n: NodeId)
    requires Valid(s) && n in s && !IsTop(s, n)
    ensures Valid(Unlink(s, n))
    ensures Unlink(s, n)[n].parent.None?
    ensures forall m :: m in s && m != n ==> Unlink(s, n)[m].parent == s[m].parent
    ensures forall m :: m in s && m != s[n].parent.value ==> Unlink(s, n)[m].children == s[m].children
  {
    var p := s[n].parent.value;
    var t := Unlink(s, n);
    var cs := RemoveFirst(s[p].children, n);
    UnlinkIs(s, n);
    RemoveFirstDistinct(s[p].children, n);
    UnlinkedChildLinks(s, t, n, p, cs);
    UnlinkedBackLinks(s, t, n, p, cs);
    UnlinkedRooted(s, t, n, p, cs);
  }

  /** ns linked under p, spliced into its list at index i. */
  function Link<K>(s: Store<K>, p: NodeId, ns: seq<NodeId>, i: nat): (t: Store<K>)
    requires p in s && i <= |s[p].children|
    requires forall n :: n in ns ==> n in s
    ensures t.Keys == s.Keys
  {
    var cs := s[p].children;
    SetChildren(SetParents(s, ns, Some(p)), p, cs[..i] + ns + cs[i..])
  }

  /** m lies in the subtree of one of ns. */
  ghost predicate Under<K>(s: Store<K>, ns: seq<NodeId>, m: NodeId)
    requires Valid(s) && m in s
  {
    exists x :: x in ns && AncOrSelf(s, x, m)
  }

  lemma NoDupSplice<T>(cs: seq<T>, ns: seq<T>, i: nat)
    requires NoDup(cs) && NoDup(ns) && i <= |cs|
    requires forall x :: x in ns ==> x !in cs
    ensures NoDup(cs[..i] + ns + cs[i..])
  {
    assert cs == cs[..i] + cs[i..];
    assert NoDup(cs[..i]) && NoDup(cs[i..]) by {
      forall a, b | 0 <= a < b < |cs[i..]|
        ensures cs[i..][a] != cs[i..][b]
      {
        assert cs[i..][a] == cs[i + a] && cs[i..][b] == cs[i + b];
      }
    }
    NoDupAppend(cs[..i], ns);
    forall x | x in cs[..i] + ns
      ensures x !in cs[i..]
    {
    }
    NoDupAppend(cs[..i] + ns, cs[i..]);
  }

  ghost predicate LinkReady<K>(s: Store<K>, p: NodeId, ns: seq<NodeId>, i: nat)
    requires Valid(s)
  {
    p in s && i <= |s[p].children| && NoDup(ns)
    && forall x :: x in ns ==> x in s && s[x].parent.None? && !AncOrSelf(s, x, p)
  }

  lemma LinkShape<K>(s: Store<K>, p: NodeId, ns: seq<NodeId>, i: nat)
    requires Valid(s) && LinkReady(s, p, ns, i)
    ensures p !in ns
    ensures Link(s, p, ns, i)[p] == s[p].(children := s[p].children[..i] + ns + s[p].children[i..])
    ensures forall m :: m in s && m in ns ==> Link(s, p, ns, i)[m] == s[m].(parent := Some(p))
    ensures forall m :: m in s && m !in ns && m != p ==> Link(s, p, ns, i)[m] == s[m]
    ensures forall x :: x in s[p].children ==> x !in ns
  {
    assert p !in ns by {
      if p in ns {
        assert AncOrSelf(s, p, p);
      }
    }
    forall x | x in s[p].children
      ensures x !in ns
    {
      ListedByParent(s, p, x);
    }
  }

  lemma LinkLinks<K>(s: Store<K>, p: NodeId, ns: seq<NodeId>, i: nat)
    requires Valid(s) && LinkReady(s, p, ns, i)
    ensures ParentsIn(Link(s, p, ns, i))
    ensures forall n, k :: n in Link(s, p, ns, i) && 0 <= k < |Link(s, p, ns, i)[n].children|
              ==> ChildLink(Link(s, p, ns, i), n, Link(s, p, ns, i)[n].children[k])
    ensures forall n :: n in Link(s, p, ns, i) && Link(s, p, ns, i)[n].parent.Some?
              && Link(s, p, ns, i)[n].parent.value != n
              ==> n in Link(s, p, ns, i)[Link(s, p, ns, i)[n].parent.value].children
    ensures forall n :: n in Link(s, p, ns, i) ==> NoDup(Link(s, p, ns, i)[n].children)
  {
    LinkChildLinks(s, p, ns, i);
    LinkBackLinks(s, p, ns, i);
  }

  /** The spliced list holds the old children and the new ones, and nothing else. */
  lemma SplicedMembers<T>(cs: seq<T>, ns: seq<T>, i: nat)
    requires i <= |cs|
    ensures forall x :: x in cs[..i] + ns + cs[i..] <==> x in cs || x in ns
  {
    assert cs == cs[..i] + cs[i..];
  }

  /** After Link every listed child points back at the node that lists it. */
  lemma LinkChildLinks<K>(s: Store<K>, p: NodeId, ns: seq<NodeId>, i: nat)
    requires Valid(s) && LinkReady(s, p, ns, i)
    ensures forall n, k :: n in Link(s, p, ns, i) && 0 <= k < |Link(s, p, ns, i)[n].children|
              ==> ChildLink(Link(s, p, ns, i), n, Link(s, p, ns, i)[n].children[k])
  {
    var cs := s[p].children;
    var t := Link(s, p, ns, i);
    LinkShape(s, p, ns, i);
    SplicedMembers(cs, ns, i);
    forall m, k | m in t && 0 <= k < |t[m].children|
      ensures ChildLink(t, m, t[m].children[k])
    {
      var c := t[m].children[k];
      if m == p && c in ns {
      } else {
        assert c in s[m].children;
        ListedByParent(s, m, c);
      }
    }
  }

  /** After Link parents exist, list their children once, and list every node pointing at them. */
  lemma LinkBackLinks<K>(s: Store<K>, p: NodeId, ns: seq<NodeId>, i: nat)
    requires Valid(s) && LinkReady(s, p, ns, i)
    ensures ParentsIn(Link(s, p, ns, i))
    ensures forall n :: n in Link(s, p, ns, i) && Link(s, p, ns, i)[n].parent.Some?
              && Link(s, p, ns, i)[n].parent.value != n
              ==> n in Link(s, p, ns, i)[Link(s, p, ns, i)[n].parent.value].children
    ensures forall n :: n in Link(s, p, ns, i) ==> NoDup(Link(s, p, ns, i)[n].children)
  {
    var cs := s[p].children;
    var t := Link(s, p, ns, i);
    LinkShape(s, p, ns, i);
    NoDupSplice(cs, ns, i);
    SplicedMembers(cs, ns, i);
    forall m | m in t && t[m].parent.Some? && t[m].parent.value != m
      ensures m in t[t[m].parent.value].children
    {
    }
  }

  lemma LinkRooted<K>(s: Store<K>, p: NodeId, ns: seq<NodeId>, i: nat)
    requires Valid(s) && LinkReady(s, p, ns, i) && ParentsIn(Link(s, p, ns, i))
    ensures forall m :: m in Link(s, p, ns, i) ==> Rooted(Link(s, p, ns, i), m)
  {
    var t := Link(s, p, ns, i);
    var rank := (m: NodeId) => LinkRank(s, p, ns, m);
    forall x | x in t && !IsTop(t, x)
      ensures rank(t[x].parent.value) < rank(x)
    {
      LinkRankDrops(s, p, ns, i, x);
    }
    forall m | m in t
      ensures Rooted(t, m)
    {
      RankedRooted(t, rank, m);
    }
  }

  /** A rank for the linked store: nodes under ns sit below p, the rest keep their depth. */
  ghost function LinkRank<K>(s: Store<K>, p: NodeId, ns: seq<NodeId>, m: NodeId): nat
    requires Valid(s) && p in s
  {
    if m in s && Under(s, ns, m) then Depth(s, p) + 1 + Depth(s, m)
    else if m in s then Depth(s, m) else 0
  }

  /** In the linked store every parent ranks below its child. */
  lemma LinkRankDrops<K>(s: Store<K>, p: NodeId, ns: seq<NodeId>, i: nat, x: NodeId)
    requires Valid(s) && LinkReady(s, p, ns, i) && ParentsIn(Link(s, p, ns, i))
    requires x in Link(s, p, ns, i) && !IsTop(Link(s, p, ns, i), x)
    ensures LinkRank(s, p, ns, Link(s, p, ns, i)[x].parent.value) < LinkRank(s, p, ns, x)
  {
    LinkShape(s, p, ns, i);
    assert !Under(s, ns, p);
    if x in ns {
      assert AncOrSelf(s, x, x);
      TopDepth(s, x);
    } else {
      var q := s[x].parent.value;
      ParentDepth(s, x);
      assert Under(s, ns, x) <==> Under(s, ns, q) by {
        forall y | y in ns
          ensures AncOrSelf(s, y, x) <==> AncOrSelf(s, y, q)
        {
        }
      }
    }
  }

  lemma LinkValid<K>(s: Store<K>, p: NodeId, ns: seq<NodeId>, i: nat)
    requires Valid(s) && LinkReady(s, p, ns, i)
    ensures Valid(Link(s, p, ns, i))
  {
    LinkLinks(s, p, ns, i);
    LinkRooted(s, p, ns, i);
  }

  /** Detaching a node only cuts ancestry: every ancestor afterwards was one before. */
  lemma {:induction false} UnlinkAnc<K>(s: Store<K>, n: NodeId, a: NodeId, m: NodeId)
    requires Valid(s) && n in s && !IsTop(s, n) && m in s && Valid(Unlink(s, n))
    ensures AncOrSelf(Unlink(s, n), a, m) ==> AncOrSelf(s, a, m)
    decreases Depth(Unlink(s, n), m)
  {
    var t := Unlink(s, n);
    if m != a && AncOrSelf(t, a, m) {
      var q := t[m].parent.value;
      assert m != n;
      ParentDepth(t, m);
      UnlinkAnc(s, n, a, q);
    }
  }

  /** Ancestry of m depends only on the parent links along m's chain. */
  lemma {:induction false} AncSame<K>(s: Store<K>, t: Store<K>, a: NodeId, m: NodeId)
    requires Valid(s) && Valid(t) && m in s && m in t
    requires forall x :: x in s && AncOrSelf(s, x, m) ==> x in t && t[x].parent == s[x].parent
    ensures AncOrSelf(t, a, m) == AncOrSelf(s, a, m)
    decreases Depth(s, m)
  {
    assert AncOrSelf(s, m, m);
    if !IsTop(s, m) {
      var q := s[m].parent.value;
      ParentDepth(s, m);
      AncSame(s, t, a, q);
    }
  }

  /** A node without children is nobody's strict ancestor. */
  lemma {:induction false} ChildlessNotAncestor<K>(s: Store<K>, a: NodeId, m: NodeId)
    requires Valid(s) && a in s && s[a].children == [] && m in s && m != a
    ensures !AncOrSelf(s, a, m)
    decreases Depth(s, m)
  {
    if !IsTop(s, m) {
      var q := s[m].parent.value;
      assert m in s[q].children;
      ParentDepth(s, m);
      if q != a {
        ChildlessNotAncestor(s, a, q);
      }
    }
  }

  /** A fresh node without parent or children keeps a store valid. */
  lemma AddFreshValid<K>(s: Store<K>, w: NodeId, k: K)
    requires Valid(s) && w !in s
    ensures Valid(s[w := Rec(k, None, [])])
  {
    var t := s[w := Rec(k, None, [])];
    forall n, i | n in t && 0 <= i < |t[n].children|
      ensures ChildLink(t, n, t[n].children[i])
    {
      assert ChildLink(s, n, s[n].children[i]);
    }
    var rank := (m: NodeId) => if m in s then Depth(s, m) else 0;
    forall x | x in t && !IsTop(t, x)
      ensures rank(t[x].parent.value) < rank(x)
    {
      ParentDepth(s, x);
    }
    forall m | m in t
      ensures Rooted(t, m)
    {
      RankedRooted(t, rank, m);
    }
  }
}
