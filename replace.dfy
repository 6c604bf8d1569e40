/**
 * The positional edits of ChildrenNode built on removeAt and insertAt
 * (replaceChild, beforeChild, afterChild), and AbstractNode's replaceWith
 * and wrap.
 */
module Replace {
  import opened Prelude
  import opened Arena
  import opened Edit
  import opened Elements
  import opened Dom
  import opened TreeOps
  import opened Moves
  import opened Collection

  // ------------------------------------------------ replaceChild and friends

  lemma RemoveAtMovable(s: Doc, p: NodeId, i: nat, ns: seq<NodeId>)
    requires p in s && i < |s[p].children| && s[p].children[i] in s && Movable(s, ns)
    ensures Movable(RemoveAt(s, p, i), ns)
  {
  }

  /**
   * ChildrenNode.replaceChild: the first entry equal to c is removed with
   * removeAt, and the new nodes are inserted with insertAt at the index c
   * had. A c that is not a child changes nothing.
   */
  function ReplaceChild(s: Doc, p: NodeId, c: NodeId, ns: seq<NodeId>): (t: Doc)
    requires p in s && HasList(s[p].kind) && c in s && Movable(s, ns)
    ensures t.Keys == s.Keys
  {
    var cs := s[p].children;
    if c in cs then
      var i := FirstIndex(cs, c);
      RemoveAtMovable(s, p, i, ns);
      InsertAt(RemoveAt(s, p, i), p, i, ns)
    else s
  }

  /** ChildrenNode.beforeChild: insertAt at the index of c. */
  function BeforeChild(s: Doc, p: NodeId, c: NodeId, ns: seq<NodeId>): (t: Doc)
    requires p in s && HasList(s[p].kind) && Movable(s, ns)
    ensures t.Keys == s.Keys
  {
    var cs := s[p].children;
    if c in cs then InsertAt(s, p, FirstIndex(cs, c), ns) else s
  }

  /** ChildrenNode.afterChild: insertAt just past the index of c. */
  function AfterChild(s: Doc, p: NodeId, c: NodeId, ns: seq<NodeId>): (t: Doc)
    requires p in s && HasList(s[p].kind) && Movable(s, ns)
    ensures t.Keys == s.Keys
  {
    var cs := s[p].children;
    if c in cs then InsertAt(s, p, FirstIndex(cs, c) + 1, ns) else s
  }

  /** On a valid document removeAt of a listed child is the unlinking of that child. */
  lemma RemoveAtIsUnlink(s: Doc, p: NodeId, c: NodeId)
    requires DocValid(s) && p in s && HasList(s[p].kind) && c in s[p].children
    ensures c in s && !IsTop(s, c) && s[c].parent == Some(p)
    ensures FirstIndex(s[p].children, c) < |s[p].children|
    ensures RemoveAt(s, p, FirstIndex(s[p].children, c)) == Unlink(s, c)
    ensures DocValid(Unlink(s, c))
  {
    ListedByParent(s, p, c);
    ChildNotAncestor(s, p, c);
    DetachValid(s, c);
    var i := FirstIndex(s[p].children, c);
    assert RemoveChild(s, p, c) == RemoveAt(s, p, i);
    var u := RemoveAt(s, p, i);
    assert SetParent(u, c, None) == u;
  }

  /** After removeAt, the new nodes can still be moved under p. */
  lemma ReplaceStep(s: Doc, p: NodeId, c: NodeId, ns: seq<NodeId>)
    requires DocValid(s) && CanMove(s, p, ns) && c in s[p].children
    ensures var u := Unlink(s, c);
      c in s && s[c].parent.Some? && s[c].parent.value in s
      && DocValid(u) && CanMove(u, p, ns) && Movable(u, ns)
  {
    RemoveAtIsUnlink(s, p, c);
    var u := Unlink(s, c);
    UnlinkValid(s, c);
    forall n | n in ns
      ensures !AncOrSelf(u, n, p)
    {
      UnlinkAnc(s, c, n, p);
    }
    DocValidMovable(u, ns);
  }

  /** replaceChild keeps the document valid. */
  lemma ReplaceChildValid(s: Doc, p: NodeId, c: NodeId, ns: seq<NodeId>)
    requires DocValid(s) && CanMove(s, p, ns) && c in s
    ensures Movable(s, ns) && DocValid(ReplaceChild(s, p, c, ns))
  {
    DocValidMovable(s, ns);
    if c in s[p].children {
      RemoveAtIsUnlink(s, p, c);
      ReplaceStep(s, p, c, ns);
      InsertAtValid(Unlink(s, c), p, FirstIndex(s[p].children, c), ns);
    }
  }
  /**
   * t is s after replaceChild(c, ns) on p: c's slot is removed, the new
   * nodes leave their old lists and are spliced in at c's old index, i.e.
   * an index counted after removing c but before removing them from p's
   * own list; c loses its parent and the new nodes point at p.
   */
  ghost predicate ReplacedSlot(s: Doc, t: Doc, p: NodeId, c: NodeId, ns: seq<NodeId>)
    requires p in s
  {
    var cs := s[p].children;
    var i := FirstIndex(cs, c);
    && i < |cs| && t.Keys == s.Keys
    && t[p].children == SpliceAt(RemoveAll(cs[..i] + cs[i + 1..], ns), i, 0, ns)
    && (forall m :: m in s && m != p ==> t[m].children == RemoveAll(s[m].children, ns))
    && (forall m :: m in s ==> t[m].kind == s[m].kind)
    && (forall m :: m in s ==>
          t[m].parent == (if m in ns then Some(p) else if m == c then None else s[m].parent))
  }

  lemma ReplaceChildSpec(s: Doc, p: NodeId, c: NodeId, ns: seq<NodeId>)
    requires DocValid(s) && CanMove(s, p, ns) && c in s
    ensures Movable(s, ns)
    ensures var t := ReplaceChild(s, p, c, ns);
      && (c !in s[p].children ==> t == s)
      && (c in s[p].children ==> ReplacedSlot(s, t, p, c, ns))
  {
    DocValidMovable(s, ns);
    if c in s[p].children {
      ReplaceChildIsInsert(s, p, c, ns);
      UnlinkedInsertSpec(s, p, c, ns);
    }
  }

  /** insertAt after unlinking c, seen from the heap before the unlinking. */
  lemma UnlinkedInsertSpec(s: Doc, p: NodeId, c: NodeId, ns: seq<NodeId>)
    requires DocValid(s) && CanMove(s, p, ns) && c in s[p].children
    ensures c in s && s[c].parent.Some? && s[c].parent.value in s
    ensures Movable(Unlink(s, c), ns)
    ensures ReplacedSlot(s, InsertAt(Unlink(s, c), p, FirstIndex(s[p].children, c), ns), p, c, ns)
  {
    var cs := s[p].children;
    var i := FirstIndex(cs, c);
    ReplaceChildIsInsert(s, p, c, ns);
    var u := Unlink(s, c);
    UnlinkFacts(s, p, c, ns);
    RemoveFirstAt(cs, c);
    assert u[p].children == cs[..i] + cs[i + 1..];
    InsertAtSpec(u, p, i, ns);
    ReplacedFrom(s, u, InsertAt(u, p, i, ns), p, c, ns);
  }

  /** replaceChild of a listed child is insertAt on the heap with that child unlinked. */
  lemma ReplaceChildIsInsert(s: Doc, p: NodeId, c: NodeId, ns: seq<NodeId>)
    requires DocValid(s) && CanMove(s, p, ns) && c in s[p].children
    ensures Movable(s, ns) && c in s && s[c].parent == Some(p)
    ensures Movable(Unlink(s, c), ns)
    ensures ReplaceChild(s, p, c, ns) == InsertAt(Unlink(s, c), p, FirstIndex(s[p].children, c), ns)
  {
    DocValidMovable(s, ns);
    RemoveAtIsUnlink(s, p, c);
    ReplaceStep(s, p, c, ns);
  }

  /** u is s with c unlinked from p, c being listed by p. */
  ghost predicate UnlinkedFrom(s: Doc, u: Doc, p: NodeId, c: NodeId)
    requires p in s
  {
    && u.Keys == s.Keys && c in s && c != p
    && u[p].children == RemoveFirst(s[p].children, c)
    && u[c].parent.None?
    && (forall m :: m in s && m != c ==> u[m].parent == s[m].parent)
    && (forall m :: m in s && m != p ==> u[m].children == s[m].children)
    && (forall m :: m in s ==> u[m].kind == s[m].kind)
  }

  /** The heap after unlinking c, as insertAtSpec needs it. */
  lemma UnlinkFacts(s: Doc, p: NodeId, c: NodeId, ns: seq<NodeId>)
    requires DocValid(s) && CanMove(s, p, ns) && c in s[p].children
    ensures c in s && s[c].parent == Some(p) && c != p && p !in ns
    ensures var u := Unlink(s, c);
      && ChildrenPointBack(u) && ListsDistinct(u)
      && (forall n :: n in ns ==> u[n].parent != Some(n))
      && UnlinkedFrom(s, u, p, c)
  {
    RemoveAtIsUnlink(s, p, c);
    UnlinkValid(s, c);
    DocValidLinked(Unlink(s, c));
    assert p !in ns by {
      if p in ns {
        assert AncOrSelf(s, p, p);
      }
    }
  }

  lemma RemoveFirstAt(xs: seq<NodeId>, x: NodeId)
    requires x in xs
    ensures FirstIndex(xs, x) < |xs|
    ensures RemoveFirst(xs, x) == xs[..FirstIndex(xs, x)] + xs[FirstIndex(xs, x) + 1..]
  {
  }

  /** Moving ns after unlinking c, seen from the heap before the unlinking. */
  lemma ReplacedFrom(s: Doc, u: Doc, t: Doc, p: NodeId, c: NodeId, ns: seq<NodeId>)
    requires p in s && UnlinkedFrom(s, u, p, c) && c in s[p].children
    requires var cs := s[p].children;
      var i := FirstIndex(cs, c);
      MovedTo(u, t, p, ns, SpliceAt(RemoveAll(cs[..i] + cs[i + 1..], ns), i, 0, ns))
    ensures ReplacedSlot(s, t, p, c, ns)
  {
  }

  /** When none of the new nodes is already p's child, they take exactly c's slot. */
  lemma ReplaceChildInPlace(s: Doc, p: NodeId, c: NodeId, ns: seq<NodeId>)
    requires DocValid(s) && CanMove(s, p, ns) && c in s[p].children
    requires forall x :: x in ns ==> x !in s[p].children
    ensures Movable(s, ns)
    ensures var cs := s[p].children;
      var i := FirstIndex(cs, c);
      var t := ReplaceChild(s, p, c, ns);
      t[p].children == cs[..i] + ns + cs[i + 1..] && t[c].parent.None? && DocValid(t)
  {
    ReplaceChildSpec(s, p, c, ns);
    ReplaceChildValid(s, p, c, ns);
    var cs := s[p].children;
    var i := FirstIndex(cs, c);
    var l := cs[..i] + cs[i + 1..];
    assert forall x :: x in ns ==> x !in l by {
      assert cs == cs[..i] + cs[i..];
    }
    RemoveAllAbsent(l, ns);
    assert c !in ns;
  }
  /**
   * beforeChild and afterChild compute c's index before insertAt detaches
   * the new nodes, so every new node that was an earlier sibling of c
   * shifts the insertion point one place to the right.
   */
  lemma BeforeChildSpec(s: Doc, p: NodeId, c: NodeId, ns: seq<NodeId>)
    requires DocValid(s) && CanMove(s, p, ns)
    ensures Movable(s, ns) && DocValid(BeforeChild(s, p, c, ns))
    ensures var cs := s[p].children;
      var t := BeforeChild(s, p, c, ns);
      && (c !in cs ==> t == s)
      && (c in cs ==> MovedTo(s, t, p, ns, SpliceAt(RemoveAll(cs, ns), FirstIndex(cs, c), 0, ns)))
  {
    MoveReady(s, p, ns);
    var cs := s[p].children;
    if c in cs {
      InsertAtSpec(s, p, FirstIndex(cs, c), ns);
      InsertAtValid(s, p, FirstIndex(cs, c), ns);
    }
  }

  lemma AfterChildSpec(s: Doc, p: NodeId, c: NodeId, ns: seq<NodeId>)
    requires DocValid(s) && CanMove(s, p, ns)
    ensures Movable(s, ns) && DocValid(AfterChild(s, p, c, ns))
    ensures var cs := s[p].children;
      var t := AfterChild(s, p, c, ns);
      && (c !in cs ==> t == s)
      && (c in cs ==> MovedTo(s, t, p, ns, SpliceAt(RemoveAll(cs, ns), FirstIndex(cs, c) + 1, 0, ns)))
  {
    MoveReady(s, p, ns);
    var cs := s[p].children;
    if c in cs {
      InsertAtSpec(s, p, FirstIndex(cs, c) + 1, ns);
      InsertAtValid(s, p, FirstIndex(cs, c) + 1, ns);
    }
  }

  /** What insertAtSpec needs of a valid document. */
  lemma MoveReady(s: Doc, p: NodeId, ns: seq<NodeId>)
    requires DocValid(s) && CanMove(s, p, ns)
    ensures Movable(s, ns) && ChildrenPointBack(s) && ListsDistinct(s) && p !in ns
  {
    DocValidMovable(s, ns);
    DocValidLinked(s);
    assert p !in ns by {
      if p in ns {
        assert AncOrSelf(s, p, p);
      }
    }
  }

  /** p lists exactly [a, b, c], with consistent links. */
  ghost predicate ThreeChildren(s: Doc, p: NodeId, a: NodeId, b: NodeId, c: NodeId) {
    && ChildrenPointBack(s) && ListsDistinct(s)
    && p in s && HasList(s[p].kind) && s[p].children == [a, b, c] && a != p
  }

  /**
   * With children [a, b, c], moving the first child before the third one
   * puts it after the third.
   */
  lemma BeforeChildShifts(s: Doc, p: NodeId, a: NodeId, b: NodeId, c: NodeId)
    requires ThreeChildren(s, p, a, b, c)
    ensures Movable(s, [a]) && BeforeChild(s, p, c, [a])[p].children == [b, c, a]
  {
    ShiftReady(s, p, a, b, c);
    ThreeLists(a, b, c);
    InsertAtList(s, p, 2, [a]);
  }

  /** The facts about [a, b, c] both three-children lemmas use. */
  lemma ShiftReady(s: Doc, p: NodeId, a: NodeId, b: NodeId, c: NodeId)
    requires ThreeChildren(s, p, a, b, c)
    ensures MoveOk(s, p, [a]) && a != c && b != c
  {
    assert a in s[p].children;
    assert Attached(s, a);
    assert forall n :: n in [a] <==> n == a;
    assert NoDup([a, b, c]);
    assert [a, b, c][0] != [a, b, c][2] && [a, b, c][1] != [a, b, c][2];
  }

  lemma ThreeLists(a: NodeId, b: NodeId, c: NodeId)
    requires a != c && b != c
    ensures c in [a, b, c] && FirstIndex([a, b, c], c) == 2
    ensures RemoveAll([a, b, c], [a]) == [b, c] && FirstIndex([b, c], c) == 1
    ensures SpliceAt([b, c], 2, 0, [a]) == [b, c, a] && SpliceAt([b, c], 1, 0, [a]) == [b, a, c]
  {
    IndexOfThird(a, b, c);
    RemoveFirstOfThree(a, b, c);
    SpliceTwo(a, b, c);
  }

  lemma IndexOfThird(a: NodeId, b: NodeId, c: NodeId)
    requires a != c && b != c
    ensures c in [a, b, c] && FirstIndex([a, b, c], c) == 2 && FirstIndex([b, c], c) == 1
  {
    assert [a, b, c][1..] == [b, c] && [b, c][1..] == [c];
  }

  lemma RemoveFirstOfThree(a: NodeId, b: NodeId, c: NodeId)
    ensures RemoveAll([a, b, c], [a]) == [b, c]
  {
    assert RemoveFirst([a, b, c], a) == [b, c];
  }

  lemma SpliceTwo(a: NodeId, b: NodeId, c: NodeId)
    ensures SpliceAt([b, c], 2, 0, [a]) == [b, c, a] && SpliceAt([b, c], 1, 0, [a]) == [b, a, c]
  {
    assert [b, c][..1] == [b] && [b, c][1..] == [c];
  }

  /** What insertAt's list effect needs. */
  ghost predicate MoveOk(s: Doc, p: NodeId, ns: seq<NodeId>) {
    && ChildrenPointBack(s) && ListsDistinct(s)
    && p in s && HasList(s[p].kind) && Movable(s, ns) && p !in ns
    && (forall n :: n in ns ==> s[n].parent != Some(n))
  }

  /** insertAt's effect on the list it splices. */
  lemma InsertAtList(s: Doc, p: NodeId, i: nat, ns: seq<NodeId>)
    requires MoveOk(s, p, ns)
    ensures InsertAt(s, p, i, ns)[p].children == SpliceAt(RemoveAll(s[p].children, ns), i, 0, ns)
  {
    InsertAtSpec(s, p, i, ns);
  }

  /**
   * beforeChild as evidently intended: c's index is taken after the new
   * nodes have left p's list, so they end up right before c.
   */
  function InsertBefore(s: Doc, p: NodeId, c: NodeId, ns: seq<NodeId>): (t: Doc)
    requires p in s && HasList(s[p].kind) && Movable(s, ns)
    ensures t.Keys == s.Keys
  {
    var l := RemoveAll(s[p].children, ns);
    if c in l then InsertAt(s, p, FirstIndex(l, c), ns) else s
  }

  /** afterChild as evidently intended: the new nodes end up right after c. */
  function InsertAfter(s: Doc, p: NodeId, c: NodeId, ns: seq<NodeId>): (t: Doc)
    requires p in s && HasList(s[p].kind) && Movable(s, ns)
    ensures t.Keys == s.Keys
  {
    var l := RemoveAll(s[p].children, ns);
    if c in l then InsertAt(s, p, FirstIndex(l, c) + 1, ns) else s
  }

  /** The other children keep their order, with c still listed. */
  lemma RemainingHasChild(s: Doc, p: NodeId, c: NodeId, ns: seq<NodeId>)
    requires DocValid(s) && p in s && c in s[p].children && c !in ns
    ensures var l := RemoveAll(s[p].children, ns);
      c in l && FirstIndex(l, c) < |l| && l[FirstIndex(l, c)] == c
  {
    DocValidLinked(s);
    RemoveAllDistinct(s[p].children, ns);
  }

  /** t is s with ns moved under p to sit right before c among the remaining children. */
  ghost predicate PlacedBefore(s: Doc, t: Doc, p: NodeId, c: NodeId, ns: seq<NodeId>)
    requires p in s
  {
    var l := RemoveAll(s[p].children, ns);
    var j := FirstIndex(l, c);
    && j < |l| && l[j] == c
    && MovedTo(s, t, p, ns, l[..j] + ns + l[j..])
    && t[p].children == l[..j] + ns + l[j..]
    && t[p].children[j..j + |ns|] == ns && t[p].children[j + |ns|] == c
  }

  lemma InsertBeforeSpec(s: Doc, p: NodeId, c: NodeId, ns: seq<NodeId>)
    requires DocValid(s) && CanMove(s, p, ns) && c in s[p].children && c !in ns
    ensures Movable(s, ns) && DocValid(InsertBefore(s, p, c, ns))
    ensures PlacedBefore(s, InsertBefore(s, p, c, ns), p, c, ns)
  {
    RemainingHasChild(s, p, c, ns);
    var l := RemoveAll(s[p].children, ns);
    var j := FirstIndex(l, c);
    InsertBeforeIs(s, p, c, ns);
    PlacedAt(s, p, ns, j);
    SpliceFacts(l, j, ns);
    MovedList(s, InsertBefore(s, p, c, ns), p, ns, l[..j] + ns + l[j..]);
  }

  /** t is s with ns moved under p to sit right after c among the remaining children. */
  ghost predicate PlacedAfter(s: Doc, t: Doc, p: NodeId, c: NodeId, ns: seq<NodeId>)
    requires p in s
  {
    var l := RemoveAll(s[p].children, ns);
    var j := FirstIndex(l, c);
    && j < |l| && l[j] == c
    && MovedTo(s, t, p, ns, l[..j + 1] + ns + l[j + 1..])
    && t[p].children == l[..j + 1] + ns + l[j + 1..]
    && t[p].children[j] == c && t[p].children[j + 1..j + 1 + |ns|] == ns
  }

  lemma InsertAfterSpec(s: Doc, p: NodeId, c: NodeId, ns: seq<NodeId>)
    requires DocValid(s) && CanMove(s, p, ns) && c in s[p].children && c !in ns
    ensures Movable(s, ns) && DocValid(InsertAfter(s, p, c, ns))
    ensures PlacedAfter(s, InsertAfter(s, p, c, ns), p, c, ns)
  {
    RemainingHasChild(s, p, c, ns);
    var l := RemoveAll(s[p].children, ns);
    var j := FirstIndex(l, c);
    InsertAfterIs(s, p, c, ns);
    PlacedAt(s, p, ns, j + 1);
    SpliceFacts(l, j + 1, ns);
    MovedList(s, InsertAfter(s, p, c, ns), p, ns, l[..j + 1] + ns + l[j + 1..]);
  }

  lemma InsertBeforeIs(s: Doc, p: NodeId, c: NodeId, ns: seq<NodeId>)
    requires p in s && HasList(s[p].kind) && Movable(s, ns) && c in RemoveAll(s[p].children, ns)
    ensures var l := RemoveAll(s[p].children, ns);
      InsertBefore(s, p, c, ns) == InsertAt(s, p, FirstIndex(l, c), ns)
  {
  }

  lemma InsertAfterIs(s: Doc, p: NodeId, c: NodeId, ns: seq<NodeId>)
    requires p in s && HasList(s[p].kind) && Movable(s, ns) && c in RemoveAll(s[p].children, ns)
    ensures var l := RemoveAll(s[p].children, ns);
      InsertAfter(s, p, c, ns) == InsertAt(s, p, FirstIndex(l, c) + 1, ns)
  {
  }

  /** insertAt into a valid document, at any index. */
  lemma PlacedAt(s: Doc, p: NodeId, ns: seq<NodeId>, k: nat)
    requires DocValid(s) && CanMove(s, p, ns)
    ensures Movable(s, ns)
    ensures DocValid(InsertAt(s, p, k, ns))
    ensures MovedTo(s, InsertAt(s, p, k, ns), p, ns, SpliceAt(RemoveAll(s[p].children, ns), k, 0, ns))
  {
    MoveReady(s, p, ns);
    InsertAtSpec(s, p, k, ns);
    InsertAtValid(s, p, k, ns);
  }

  lemma MovedList(s: Doc, t: Doc, p: NodeId, ns: seq<NodeId>, cs: seq<NodeId>)
    requires MovedTo(s, t, p, ns, cs) && p in s
    ensures t[p].children == cs
  {
  }

  lemma SpliceFacts(l: seq<NodeId>, j: nat, ns: seq<NodeId>)
    requires j <= |l|
    ensures SpliceAt(l, j, 0, ns) == l[..j] + ns + l[j..]
    ensures j < |l| ==> (l[..j] + ns + l[j..])[j + |ns|] == l[j]
    ensures (l[..j] + ns + l[j..])[j..j + |ns|] == ns
    ensures 0 < j ==> (l[..j] + ns + l[j..])[j - 1] == l[j - 1]
  {
  }

  /** With children [a, b, c], the intended beforeChild puts a between b and c. */
  lemma InsertBeforeKeepsPlace(s: Doc, p: NodeId, a: NodeId, b: NodeId, c: NodeId)
    requires ThreeChildren(s, p, a, b, c)
    ensures Movable(s, [a]) && InsertBefore(s, p, c, [a])[p].children == [b, a, c]
  {
    ShiftReady(s, p, a, b, c);
    ThreeLists(a, b, c);
    InsertAtList(s, p, 1, [a]);
  }

  // ---------------------------------------------------- replaceWithChildren

  /**
   * replaceWithChildren: the parent's replaceChild with this node's own
   * list, so the dispatch follows the class of the parent.
   */
  function ReplaceWithChildren(s: Doc, n: NodeId): (t: Doc)
    requires Attached(s, n) && IsContainer(s[n].kind) && Movable(s, s[n].children)
    ensures t.Keys == s.Keys
  {
    var q := s[n].parent.value;
    if HasList(s[q].kind) then ReplaceChild(s, q, n, s[n].children)
    else CollReplaceChild(s, q, n, s[n].children)
  }

  /** The children of n fill n's slot under q, n is left parentless and childless. */
  ghost predicate ChildrenLifted(s: Doc, t: Doc, n: NodeId, q: NodeId)
    requires n in s && q in s
  {
    var qs := s[q].children;
    var i := FirstIndex(qs, n);
    && i < |qs| && t.Keys == s.Keys
    && t[q].children == qs[..i] + s[n].children + qs[i + 1..]
    && t[n].children == [] && t[n].parent.None?
    && (forall x :: x in s[n].children ==> x in t && t[x].parent == Some(q))
  }

  /**
   * Under a TagNode or RootNode parent, replaceWithChildren puts n's
   * children in n's place, in their order, and keeps the document valid.
   */
  lemma ReplaceWithChildrenSpec(s: Doc, n: NodeId)
    requires DocValid(s) && Attached(s, n) && s[n].parent != Some(n) && IsContainer(s[n].kind)
    requires HasList(s[s[n].parent.value].kind)
    ensures Movable(s, s[n].children)
    ensures var t := ReplaceWithChildren(s, n);
      ChildrenLifted(s, t, n, s[n].parent.value) && DocValid(t)
  {
    var q := s[n].parent.value;
    var cs := s[n].children;
    LiftReady(s, n);
    ReplaceChildInPlace(s, q, n, cs);
    ReplaceChildSpec(s, q, n, cs);
    RemoveAllSelf(cs);
  }

  /** The children of a non-root node can move into its parent's list. */
  lemma LiftReady(s: Doc, n: NodeId)
    requires DocValid(s) && Attached(s, n) && s[n].parent != Some(n)
    requires HasList(s[s[n].parent.value].kind)
    ensures var q := s[n].parent.value;
      && n in s[q].children && n != q && Movable(s, s[n].children)
      && CanMove(s, q, s[n].children)
      && forall x :: x in s[n].children ==> x !in s[q].children
  {
    var q := s[n].parent.value;
    DocValidLinked(s);
    DocValidMovable(s, s[n].children);
    forall x | x in s[n].children
      ensures x in s && s[x].parent != Some(x) && !AncOrSelf(s, x, q) && x !in s[q].children
    {
      Grandchild(s, q, n, x);
    }
  }

  lemma Grandchild(s: Doc, q: NodeId, n: NodeId, x: NodeId)
    requires DocValid(s) && ChildrenPointBack(s) && q in s && n in s[q].children && x in s[n].children
    ensures x in s && s[x].parent == Some(n) && x != n && !AncOrSelf(s, x, q) && x !in s[q].children
  {
    ChildDepth(s, q, n);
    ChildDepth(s, n, x);
    if AncOrSelf(s, x, q) {
      AncDepth(s, x, q);
    }
  }

  lemma {:induction false} RemoveAllSelf(xs: seq<NodeId>)
    ensures RemoveAll(xs, xs) == []
    decreases |xs|
  {
    if |xs| > 0 {
      assert RemoveFirst(xs, xs[0]) == xs[1..];
      RemoveAllSelf(xs[1..]);
    }
  }

  /**
   * Under a CollectionNode parent, n's children fill n's slot and point at
   * the collection, while n keeps its own list.
   */
  lemma CollReplaceWithChildrenSpec(s: Doc, n: NodeId)
    requires Attached(s, n) && s[n].parent != Some(n) && IsContainer(s[n].kind)
    requires s[s[n].parent.value].kind.CollectionE? && Movable(s, s[n].children)
    ensures var q := s[n].parent.value;
      var t := ReplaceWithChildren(s, n);
      && (n !in s[q].children ==> t == s)
      && (n in s[q].children ==> FilledSlot(s, t, q, n, s[n].children) && t[n].children == s[n].children)
  {
    CollReplaceChildSpec(s, s[n].parent.value, n, s[n].children);
  }

  // ------------------------------------------------------------ replaceWith

  /**
   * replaceWith's loop: it walks a copy of the parent's list and, at every
   * index i of the copy holding x, splices the live list at that same i;
   * the flag records whether some entry matched.
   */
  function ReplaceWalk(live: seq<NodeId>, copy: seq<NodeId>, i: nat, x: NodeId, ns: seq<NodeId>)
    : (r: (seq<NodeId>, bool))
    ensures !r.1 ==> r.0 == live
    decreases |copy| - i
  {
    if i >= |copy| then (live, false)
    else if copy[i] == x then (ReplaceWalk(SpliceAt(live, i, 1, ns), copy, i + 1, x, ns).0, true)
    else ReplaceWalk(live, copy, i + 1, x, ns)
  }

  /** Without x in the rest of the copy the walk changes nothing. */
  lemma {:induction false} ReplaceWalkSkip(live: seq<NodeId>, copy: seq<NodeId>, i: nat, x: NodeId, ns: seq<NodeId>)
    requires forall j :: i <= j < |copy| ==> copy[j] != x
    ensures ReplaceWalk(live, copy, i, x, ns) == (live, false)
    decreases |copy| - i
  {
    if i < |copy| {
      ReplaceWalkSkip(live, copy, i + 1, x, ns);
    }
  }

  /** With x once in the rest of the copy, at k, the walk splices the live list at k. */
  lemma {:induction false} ReplaceWalkAt(live: seq<NodeId>, copy: seq<NodeId>, i: nat, k: nat, x: NodeId, ns: seq<NodeId>)
    requires i <= k < |copy| && copy[k] == x
    requires forall j :: i <= j < |copy| && j != k ==> copy[j] != x
    ensures ReplaceWalk(live, copy, i, x, ns) == (SpliceAt(live, k, 1, ns), true)
    decreases |copy| - i
  {
    if i == k {
      ReplaceWalkSkip(SpliceAt(live, k, 1, ns), copy, i + 1, x, ns);
    } else {
      ReplaceWalkAt(live, copy, i + 1, k, x, ns);
    }
  }

  /**
   * AbstractNode.replaceWith: the walk over the parent's list, and only if
   * it matched, the new nodes point at the parent and n loses its parent.
   * A parentless node is left alone (PHP reads the list of null as empty).
   */
  function ReplaceWith(s: Doc, n: NodeId, ns: seq<NodeId>): (t: Doc)
    requires n in s && (forall x :: x in ns ==> x in s)
    requires s[n].parent.Some? ==> Attached(s, n)
    ensures t.Keys == s.Keys
    ensures forall m :: m in s ==> t[m].kind == s[m].kind
    ensures t[n].parent.None? || t[n].parent == s[n].parent
  {
    if s[n].parent.None? then s
    else
      var q := s[n].parent.value;
      var r := ReplaceWalk(s[q].children, s[q].children, 0, n, ns);
      var u := SetChildren(s, q, r.0);
      if r.1 then SetParent(SetParents(u, ns, Some(q)), n, None) else u
  }

  /**
   * replaceWith fills n's slot with the new nodes and points them at the
   * parent, without taking them out of any other list; n ends parentless.
   * Without a parent, or when the parent does not list n, nothing changes.
   */
  lemma ReplaceWithSpec(s: Doc, n: NodeId, ns: seq<NodeId>)
    requires n in s && (forall x :: x in ns ==> x in s)
    requires s[n].parent.Some? ==> Attached(s, n) && NoDup(s[s[n].parent.value].children)
    ensures var t := ReplaceWith(s, n, ns);
      && (s[n].parent.None? ==> t == s)
      && (s[n].parent.Some? && n !in s[s[n].parent.value].children ==> t == s)
      && (s[n].parent.Some? && n in s[s[n].parent.value].children ==>
            t[n].parent.None? && (n !in ns ==> FilledSlot(s, t, s[n].parent.value, n, ns)))
  {
    if s[n].parent.Some? {
      var q := s[n].parent.value;
      var qs := s[q].children;
      if n in qs {
        var k := FirstIndex(qs, n);
        ReplaceWalkAt(qs, qs, 0, k, n, ns);
        if n !in ns {
          ReplacedFrame(s, q, n, ns);
        }
      } else {
        ReplaceWalkSkip(qs, qs, 0, n, ns);
        assert SetChildren(s, q, qs) == s;
      }
    }
  }

  lemma ReplacedFrame(s: Doc, q: NodeId, n: NodeId, ns: seq<NodeId>)
    requires n in s && q in s && n in s[q].children && n !in ns && (forall x :: x in ns ==> x in s)
    requires s[n].parent == Some(q) && Attached(s, n)
    requires ReplaceWalk(s[q].children, s[q].children, 0, n, ns).0
               == SpliceAt(s[q].children, FirstIndex(s[q].children, n), 1, ns)
    requires ReplaceWalk(s[q].children, s[q].children, 0, n, ns).1
    ensures FilledSlot(s, ReplaceWith(s, n, ns), q, n, ns)
  {
    var qs := s[q].children;
    var k := FirstIndex(qs, n);
    assert SpliceAt(qs, k, 1, ns) == qs[..k] + ns + qs[k + 1..];
  }

  /** Replacement nodes taken from another parent stay listed there: the links disagree. */
  lemma ReplaceWithUnlinks(s: Doc, n: NodeId, ns: seq<NodeId>, x: NodeId)
    requires Linked(s) && n in s && (forall y :: y in ns ==> y in s) && s[n].parent.Some?
    requires s[n].parent.value != n && n !in ns
    requires x in ns && s[x].parent.Some? && s[x].parent.value !in {x, s[n].parent.value}
    ensures !Linked(ReplaceWith(s, n, ns))
  {
    var q := s[n].parent.value;
    var r := s[x].parent.value;
    assert n in s[q].children && x in s[r].children;
    ReplaceWithSpec(s, n, ns);
    var t := ReplaceWith(s, n, ns);
    assert x in t[r].children && t[x].parent == Some(q);
  }

  /**
   * With parentless replacement nodes that are not above the parent,
   * replaceWith keeps the document valid.
   */
  lemma ReplaceWithValid(s: Doc, n: NodeId, ns: seq<NodeId>)
    requires DocValid(s) && Attached(s, n) && s[n].parent != Some(n)
    requires NoDup(ns) && n !in ns
    requires forall x :: x in ns ==> x in s && s[x].parent.None? && !AncOrSelf(s, x, s[n].parent.value)
    ensures DocValid(ReplaceWith(s, n, ns))
  {
    var q := s[n].parent.value;
    assert n in s[q].children && NoDup(s[q].children);
    ReplaceWithIsLink(s, n, ns);
    var k := FirstIndex(s[q].children, n);
    var u := Unlink(s, n);
    UnlinkDocValid(s, n);
    UnlinkValid(s, n);
    forall x | x in ns
      ensures u[x].parent.None? && !AncOrSelf(u, x, q)
    {
      UnlinkAnc(s, n, x, q);
    }
    LinkDocValid(u, q, ns, k);
  }

  /** For a listed node with parentless replacements, replaceWith is an unlink followed by a link. */
  lemma ReplaceWithIsLink(s: Doc, n: NodeId, ns: seq<NodeId>)
    requires Attached(s, n) && s[n].parent != Some(n)
    requires n in s[s[n].parent.value].children && NoDup(s[s[n].parent.value].children)
    requires n !in ns && forall x :: x in ns ==> x in s
    ensures var q := s[n].parent.value;
      var k := FirstIndex(s[q].children, n);
      k < |s[q].children| && k <= |Unlink(s, n)[q].children|
      && ReplaceWith(s, n, ns) == Link(Unlink(s, n), q, ns, k)
  {
    var q := s[n].parent.value;
    var qs := s[q].children;
    var k := FirstIndex(qs, n);
    var l := RemoveFirst(qs, n);
    var spliced := SpliceAt(qs, k, 1, ns);
    SpliceAsLink(qs, n, ns);
    ReplaceWithUnfold(s, n, ns);
    var a := SetChildren(s, q, spliced);
    var b := SetParents(a, ns, Some(q));
    var c := SetChildren(s, q, l);
    var d := SetParent(c, n, None);
    var e := SetParents(d, ns, Some(q));
    LinkAgree(s, a, b, SetParent(b, n, None), c, d, e, SetChildren(e, q, spliced), q, n, ns, spliced, l);
  }

  lemma ReplaceWithUnfold(s: Doc, n: NodeId, ns: seq<NodeId>)
    requires Attached(s, n) && (forall x :: x in ns ==> x in s)
    requires n in s[s[n].parent.value].children && NoDup(s[s[n].parent.value].children)
    ensures var q := s[n].parent.value;
      var qs := s[q].children;
      ReplaceWith(s, n, ns)
        == SetParent(SetParents(SetChildren(s, q, SpliceAt(qs, FirstIndex(qs, n), 1, ns)), ns, Some(q)), n, None)
  {
    var qs := s[s[n].parent.value].children;
    ReplaceWalkAt(qs, qs, 0, FirstIndex(qs, n), n, ns);
  }

  /** Splicing n's slot is the same as linking into the list with n removed. */
  lemma SpliceAsLink(qs: seq<NodeId>, n: NodeId, ns: seq<NodeId>)
    requires n in qs
    ensures var k := FirstIndex(qs, n);
      var l := RemoveFirst(qs, n);
      k <= |l| && SpliceAt(qs, k, 1, ns) == l[..k] + ns + l[k..]
  {
    var k := FirstIndex(qs, n);
    RemoveFirstAt(qs, n);
    var l := RemoveFirst(qs, n);
    assert l[..k] == qs[..k] && l[k..] == qs[k + 1..];
  }

  lemma LinkAgree(s: Doc, a: Doc, b: Doc, t: Doc, c: Doc, d: Doc, e: Doc, v: Doc, q: NodeId, n: NodeId, ns: seq<NodeId>, spliced: seq<NodeId>, l: seq<NodeId>)
    requires q in s && n in s && n != q && n !in ns && forall x :: x in ns ==> x in s
    requires a == SetChildren(s, q, spliced) && b == SetParents(a, ns, Some(q)) && t == SetParent(b, n, None)
    requires c == SetChildren(s, q, l) && d == SetParent(c, n, None)
    requires e == SetParents(d, ns, Some(q)) && v == SetChildren(e, q, spliced)
    ensures t == v
  {
    assert t.Keys == v.Keys;
    forall m | m in t
      ensures t[m] == v[m]
    {
    }
  }

  // ------------------------------------------------------------------- wrap

  /** The record of the wrapper wrap creates: a TagNode with closing YES, no parent, no children. */
  function WrapperRec(tag: string, rawAtt: string): (r: Rec<Elem>)
    ensures r.kind.TagE? && r.kind.data.tag == tag && r.kind.data.closing == Yes
    ensures r.parent.None? && r.children == []
  {
    Rec(TagE(NewTagData(tag, rawAtt, Yes)), None, [])
  }

  /**
   * AbstractNode.wrap, with addChild's detach guarded: a fresh wrapper w takes
   * n's slot through replaceWith, then n becomes w's child.
   */
  function Wrap(s: Doc, n: NodeId, w: NodeId, tag: string, rawAtt: string): (t: Doc)
    requires n in s && w !in s && (s[n].parent.Some? ==> Attached(s, n))
    ensures t.Keys == s.Keys + {w}
  {
    var s2 := ReplaceWith(s[w := WrapperRec(tag, rawAtt)], n, [w]);
    AddChild(s2, w, n)
  }

  /**
   * wrap as written: addChild detaches n unconditionally, but replaceWith
   * has just cleared n's parent (or n never had one).
   */
  function WrapAsWritten(s: Doc, n: NodeId, w: NodeId, tag: string, rawAtt: string): (r: Result<Doc>)
    requires n in s && w !in s && (s[n].parent.Some? ==> Attached(s, n))
    ensures r.Ok? ==> r.value == Wrap(s, n, w, tag, rawAtt)
  {
    var s2 := ReplaceWith(s[w := WrapperRec(tag, rawAtt)], n, [w]);
    AddChildAsWritten(s2, w, n)
  }

  /** On every node of a valid document but the root, wrap as written fails. */
  lemma WrapAsWrittenFails(s: Doc, n: NodeId, w: NodeId, tag: string, rawAtt: string)
    requires DocValid(s) && n in s && w !in s && s[n].parent != Some(n)
    ensures s[n].parent.Some? ==> Attached(s, n)
    ensures WrapAsWritten(s, n, w, tag, rawAtt).Err?
  {
    DocValidLinked(s);
    var s1 := s[w := WrapperRec(tag, rawAtt)];
    if s[n].parent.Some? {
      assert n in s[s[n].parent.value].children;
    }
    ReplaceWithSpec(s1, n, [w]);
  }

  /** t is s with n wrapped by w, a node built from e, in n's former slot. */
  ghost predicate Wrapped(s: Doc, t: Doc, n: NodeId, w: NodeId, e: Rec<Elem>)
    requires Attached(s, n)
  {
    var q := s[n].parent.value;
    var qs := s[q].children;
    var i := FirstIndex(qs, n);
    && i < |qs| && t.Keys == s.Keys + {w}
    && t[q] == s[q].(children := qs[..i] + [w] + qs[i + 1..])
    && t[w] == e.(parent := Some(q), children := [n])
    && t[n] == s[n].(parent := Some(w))
    && forall m :: m in s && m != q && m != n ==> t[m] == s[m]
  }

  /**
   * wrap puts the wrapper in n's place under n's parent, makes n its only
   * child, changes nothing else and keeps the document valid.
   */
  lemma WrapSpec(s: Doc, n: NodeId, w: NodeId, tag: string, rawAtt: string)
    requires DocValid(s) && Attached(s, n) && s[n].parent != Some(n) && w !in s
    ensures var t := Wrap(s, n, w, tag, rawAtt);
      Wrapped(s, t, n, w, WrapperRec(tag, rawAtt)) && DocValid(t)
  {
    var e := WrapperRec(tag, rawAtt);
    var s1 := s[w := e];
    var s2 := ReplaceWith(s1, n, [w]);
    WrapReplaced(s, n, w, e);
    AddChildValid(s2, w, n);
    DocValidLinked(s2);
    AddChildSpec(s2, w, n);
    FreshFrame(s, w, e);
    WrapAppended(s, s1, s2, AddChild(s2, w, n), n, w, e);
  }

  /** After replaceWith, the wrapper sits in n's slot and n may become its child. */
  lemma WrapReplaced(s: Doc, n: NodeId, w: NodeId, e: Rec<Elem>)
    requires DocValid(s) && Attached(s, n) && s[n].parent != Some(n) && w !in s
    requires e.kind.TagE? && e.parent.None? && e.children == []
    ensures var q := s[n].parent.value;
      var s1 := s[w := e];
      var s2 := ReplaceWith(s1, n, [w]);
      && n in s[q].children && NoDup(s[q].children)
      && (forall m :: m in s && m != q ==> n !in s[m].children)
      && FilledSlot(s1, s2, q, n, [w]) && DocValid(s2) && s2[n].parent.None?
      && !AncOrSelf(s2, n, w)
  {
    var q := s[n].parent.value;
    var s1 := s[w := e];
    FreshDocValid(s, w, e.kind);
    assert n in s[q].children;
    forall m | m in s && m != q
      ensures n !in s[m].children
    {
      if n in s[m].children {
        ListedByParent(s, m, n);
      }
    }
    ReplaceWithSpec(s1, n, [w]);
    ChildlessNotAncestor(s1, w, q);
    ReplaceWithValid(s1, n, [w]);
    WrapperNotAbove(s1, ReplaceWith(s1, n, [w]), n, w, q);
  }

  /** n is not above the wrapper: the wrapper's chain is q's chain, which n is below. */
  lemma WrapperNotAbove(s1: Doc, s2: Doc, n: NodeId, w: NodeId, q: NodeId)
    requires DocValid(s1) && DocValid(s2) && q in s1 && n in s1[q].children && w in s1
    requires w != q && w != n
    requires !AncOrSelf(s1, w, q) && FilledSlot(s1, s2, q, n, [w])
    ensures !AncOrSelf(s2, n, w)
  {
    assert s2[w].parent == Some(q);
    assert AncOrSelf(s2, n, w) == AncOrSelf(s2, n, q);
    forall x | x in s1 && AncOrSelf(s1, x, q)
      ensures x in s2 && s2[x].parent == s1[x].parent
    {
      AncDepth(s1, x, q);
      ChildDepth(s1, q, n);
    }
    AncSame(s1, s2, n, q);
    ChildNotAncestor(s1, q, n);
  }

  lemma WrapAppended(s: Doc, s1: Doc, s2: Doc, t: Doc, n: NodeId, w: NodeId, e: Rec<Elem>)
    requires Attached(s, n) && s[n].parent != Some(n) && w !in s
    requires s1.Keys == s.Keys + {w} && s1[w] == e && forall m :: m in s ==> s1[m] == s[m]
    requires e.parent.None? && e.children == []
    requires var q := s[n].parent.value;
      && n in s[q].children && NoDup(s[q].children)
      && (forall m :: m in s && m != q ==> n !in s[m].children)
      && FilledSlot(s1, s2, q, n, [w])
    requires AppendedTo(s2, t, w, n)
    ensures Wrapped(s, t, n, w, e)
  {
    var q := s[n].parent.value;
    var qs := s[q].children;
    var i := FirstIndex(qs, n);
    NoDupSplit(qs, i);
    assert n !in qs[..i] + [w] + qs[i + 1..];
    WrapOthers(s, s1, s2, t, n, w, q);
  }

  lemma WrapOthers(s: Doc, s1: Doc, s2: Doc, t: Doc, n: NodeId, w: NodeId, q: NodeId)
    requires q in s && n in s && w !in s && s1.Keys == s.Keys + {w}
    requires forall m :: m in s ==> s1[m] == s[m]
    requires forall m :: m in s && m != q ==> n !in s[m].children
    requires FilledSlot(s1, s2, q, n, [w]) && AppendedTo(s2, t, w, n)
    ensures forall m :: m in s && m != q && m != n ==> t[m] == s[m]
  {
    forall m | m in s && m != q && m != n
      ensures t[m] == s[m]
    {
      assert t[m].children == s[m].children;
    }
  }

  lemma FreshFrame(s: Doc, w: NodeId, e: Rec<Elem>)
    requires w !in s
    ensures var s1 := s[w := e];
      s1.Keys == s.Keys + {w} && s1[w] == e && forall m :: m in s ==> s1[m] == s[m]
  {
  }

  lemma NoDupSplit(xs: seq<NodeId>, i: nat)
    requires NoDup(xs) && i < |xs|
    ensures xs[i] !in xs[..i] && xs[i] !in xs[i + 1..]
  {
  }
}
