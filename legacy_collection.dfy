/**
 * The older generation's NodeCollection: an ordered list of nodes that its
 * methods edit in place, with find, select and each over the subtrees of
 * its nodes, an iterator position, and Node.select built on it.
 */
module LegacyCollection {
  import opened Prelude
  import opened Arena
  import opened Elements
  import opened Dom
  import opened TreeOps
  import opened Query
  import opened LegacySelect
  import opened LegacyNode
  import Replace

  /** What the constructor is given: an array, null, or a single node. */
  datatype Init = FromArray(ns: seq<NodeId>) | FromNull | FromNode(n: NodeId)

  /** What replaceNodeWith is given: a node, or a collection whose nodes are spliced in. */
  datatype Replacement = WithNode(n: NodeId) | WithNodes(ns: seq<NodeId>)

  /** The replacement loop over a copy of the list, for either kind of replacement. */
  function ReplaceNodeWithAsWritten(nodes: seq<NodeId>, x: NodeId, y: Replacement): seq<NodeId> {
    match y
    case WithNode(m) => AssignWalk(nodes, nodes, 0, x, m)
    case WithNodes(ns) => Replace.ReplaceWalk(nodes, nodes, 0, x, ns).0
  }

  /** Select's test: Node.match with the tag, ids and classes read off the selector. */
  function SelectTest(sel: string): Elem -> bool {
    var w := ParseSelect(sel);
    e => NodeMatch(e, w.tag, w.ids, w.classes)
  }

  /** On a list of children the loop over the list is the loop below their parent. */
  lemma {:induction false} FindEachBelow(s: Doc, p: NodeId, cs: seq<NodeId>, test: Elem -> bool, d: int)
    requires Valid(s) && p in s && ChildrenOf(s, p, cs)
    ensures FindEach(s, cs, test, HasList, d) == FindBelow(s, p, cs, test, HasList, d)
  {
    if |cs| > 0 {
      FindEachBelow(s, p, cs[1..], test, d);
    }
  }

  lemma {:induction false} EachEachBelow(s: Doc, p: NodeId, cs: seq<NodeId>, d: int)
    requires Valid(s) && p in s && ChildrenOf(s, p, cs)
    ensures EachEach(s, cs, d) == EachBelow(s, p, cs, d)
  {
    if |cs| > 0 {
      EachEachBelow(s, p, cs[1..], d);
    }
  }

  /** Node.find on a node of the loop is the descent FindAt makes below it. */
  lemma NodeFindIsBelow(s: Doc, n: NodeId, test: Elem -> bool, d: int)
    requires Valid(s) && n in s && HasList(s[n].kind)
    ensures NodeFind(s, n, test, d) == Some(FindBelow(s, n, s[n].children, test, HasList, d - 1))
  {
    ChildrenIn(s, n);
    FindEachBelow(s, n, s[n].children, test, d - 1);
  }

  /** One step of find's loop: the node if it passes, then Node.find below it while the level allows. */
  lemma FindAtStep(s: Doc, n: NodeId, test: Elem -> bool, d: int)
    requires Valid(s) && n in s
    ensures FindAt(s, n, test, HasList, d)
      == (if test(s[n].kind) then [n] else [])
         + (if d != 0 && HasList(s[n].kind) then NodeFind(s, n, test, d).value else [])
  {
    if d != 0 && HasList(s[n].kind) {
      NodeFindIsBelow(s, n, test, d);
    }
  }

  lemma ConcatAssoc(a: seq<NodeId>, b: seq<NodeId>, c: seq<NodeId>)
    ensures a + (b + c) == (a + b) + c
  {
  }

  /** find's loop after one more node: what it found there joins what it had. */
  lemma FindEachSplit(s: Doc, ns: seq<NodeId>, i: nat, test: Elem -> bool, d: int, before: seq<NodeId>, here: seq<NodeId>)
    requires Valid(s) && (forall n :: n in ns ==> n in s) && i < |ns|
    requires before + FindEach(s, ns[i..], test, HasList, d) == FindEach(s, ns, test, HasList, d)
    requires here == FindAt(s, ns[i], test, HasList, d)
    ensures (before + here) + FindEach(s, ns[i + 1..], test, HasList, d) == FindEach(s, ns, test, HasList, d)
  {
    assert ns[i..][1..] == ns[i + 1..];
    ConcatAssoc(before, here, FindEach(s, ns[i + 1..], test, HasList, d));
  }

  /** each's loop after one more node. */
  lemma EachEachSplit(s: Doc, ns: seq<NodeId>, i: nat, d: int, before: seq<NodeId>, here: seq<NodeId>)
    requires Valid(s) && (forall n :: n in ns ==> n in s) && i < |ns|
    requires before + EachEach(s, ns[i..], d) == EachEach(s, ns, d)
    requires here == EachAt(s, ns[i], d)
    ensures (before + here) + EachEach(s, ns[i + 1..], d) == EachEach(s, ns, d)
  {
    assert ns[i..][1..] == ns[i + 1..];
    ConcatAssoc(before, here, EachEach(s, ns[i + 1..], d));
  }

  /** One step of each's loop: the node, then Node.each below it while the level allows. */
  lemma EachAtStep(s: Doc, n: NodeId, d: int)
    requires Valid(s) && n in s && forall c :: c in s[n].children ==> c in s
    ensures EachAt(s, n, d)
      == [n] + (if d != 0 && HasList(s[n].kind) then EachAsWritten(s, s[n].children, d - 1) else [])
  {
    if d != 0 && HasList(s[n].kind) {
      ChildrenIn(s, n);
      EachEachBelow(s, n, s[n].children, d - 2);
    }
  }

  /** What find returns at the two ends of the level range. */
  lemma FindListEnds(s: Doc, ns: seq<NodeId>, test: Elem -> bool, levels: int)
    requires Valid(s) && forall n :: n in ns ==> n in s
    ensures LegacyDoc(s) && levels <= 0 ==> FindList(s, ns, test, HasList, levels) == Keep(s, Subtrees(s, ns), test)
    ensures levels == 1 ==> FindList(s, ns, test, HasList, levels) == Keep(s, ns, test)
  {
    if LegacyDoc(s) && levels <= 0 {
      FindListHasList(s, ns, test, levels);
      FindListAll(s, ns, test, levels);
    }
    FindListShallow(s, ns, test, HasList);
  }

  /** Node.select: select on the node's children; null for texts and comments. */
  function NodeSelect(s: Doc, n: NodeId, sel: string, levels: int): (r: Option<seq<NodeId>>)
    requires Valid(s) && n in s
    ensures r.None? <==> !HasList(s[n].kind)
  {
    NodeFind(s, n, SelectTest(sel), levels)
  }

  /**
   * Node.select returns tags only, each matching the selector; with a
   * level not above 0 it returns every matching descendant, in document
   * order.
   */
  lemma NodeSelectMatches(s: Doc, n: NodeId, sel: string, levels: int)
    requires LegacyDoc(s) && n in s && HasList(s[n].kind)
    ensures var w := ParseSelect(sel);
      forall m :: m in NodeSelect(s, n, sel, levels).value ==>
        s[m].kind.TagE? && NodeMatch(s[m].kind, w.tag, w.ids, w.classes)
    ensures levels <= 0 ==> NodeSelect(s, n, sel, levels) == Some(Keep(s, Preorder(s, n)[1..], SelectTest(sel)))
  {
    NodeFindAll(s, n, SelectTest(sel), levels);
  }

  class NodeCollection {
    var nodes: seq<NodeId>
    var position: int

    /** An array is taken as the list, null gives an empty list, a node a list of one. */
    constructor (init: Init)
      ensures nodes == match init
        case FromArray(ns) => ns
        case FromNull => []
        case FromNode(n) => [n]
      ensures position == 0
    {
      position := 0;
      match init
      case FromArray(ns) => nodes := ns;
      case FromNull => nodes := [];
      case FromNode(n) => nodes := [n];
    }

    method Add(n: NodeId)
      modifies this
      ensures nodes == old(nodes) + [n] && position == old(position)
    {
      nodes := nodes + [n];
    }

    method AddRange(ns: seq<NodeId>)
      modifies this
      ensures nodes == old(nodes) + ns && position == old(position)
    {
      nodes := nodes + ns;
    }

    method Clear()
      modifies this
      ensures nodes == [] && position == old(position)
    {
      nodes := [];
    }

    function Count(): (r: nat)
      reads this
      ensures r == |nodes|
    {
      |nodes|
    }

    /**
     * remove: the loop over a copy splices the live list at the copy's
     * index of every entry with x's uid. On a list without repeats x is
     * dropped and the rest keep their order.
     */
    method Remove(x: NodeId)
      modifies this
      ensures nodes == CollRemoveAsWritten(old(nodes), old(nodes), 0, x)
      ensures NoDup(old(nodes)) ==> nodes == Without(old(nodes), x)
      ensures position == old(position)
    {
      var copy := nodes;
      var i := 0;
      while i < |copy|
        invariant 0 <= i <= |copy| && position == old(position)
        invariant CollRemoveAsWritten(nodes, copy, i, x) == CollRemoveAsWritten(copy, copy, 0, x)
      {
        if copy[i] == x {
          nodes := SpliceAt(nodes, i, 1, []);
        }
        i := i + 1;
      }
      if NoDup(copy) {
        CollRemoveDistinct(copy, x);
      }
    }

    method First() returns (r: Option<NodeId>)
      ensures r.Some? <==> |nodes| > 0
      ensures r.Some? ==> r.value == nodes[0]
    {
      r := At(nodes, 0);
    }

    /** nth: the node at index i, null when there is none. */
    method Nth(i: int) returns (r: Option<NodeId>)
      ensures r.Some? <==> 0 <= i < |nodes|
      ensures r.Some? ==> r.value == nodes[i]
    {
      r := At(nodes, i);
    }

    /**
     * replaceNodeWith: the loop over a copy puts the replacement at every
     * index of the copy holding x: a node by assignment, a collection's
     * nodes by a splice of the live list at that index. With x once in the
     * list, its one entry is replaced.
     */
    method ReplaceNodeWith(x: NodeId, y: Replacement)
      modifies this
      ensures nodes == ReplaceNodeWithAsWritten(old(nodes), x, y)
      ensures NoDup(old(nodes)) && x in old(nodes) ==>
        var k := FirstIndex(old(nodes), x);
        nodes == old(nodes)[..k] + (match y case WithNode(m) => [m] case WithNodes(ns) => ns) + old(nodes)[k + 1..]
      ensures position == old(position)
    {
      var copy := nodes;
      var i := 0;
      while i < |copy|
        invariant 0 <= i <= |copy| && position == old(position)
        invariant y.WithNode? ==> |nodes| == |copy| && AssignWalk(nodes, copy, i, x, y.n) == AssignWalk(copy, copy, 0, x, y.n)
        invariant y.WithNodes? ==> Replace.ReplaceWalk(nodes, copy, i, x, y.ns).0 == Replace.ReplaceWalk(copy, copy, 0, x, y.ns).0
      {
        if copy[i] == x {
          match y
          case WithNode(m) => nodes := nodes[i := m];
          case WithNodes(ns) => nodes := SpliceAt(nodes, i, 1, ns);
        }
        i := i + 1;
      }
      if NoDup(copy) && x in copy {
        var k := FirstIndex(copy, x);
        match y
        case WithNode(m) =>
          assert nodes == copy[..k] + [m] + copy[k + 1..];
        case WithNodes(ns) =>
          Replace.ReplaceWalkAt(copy, copy, 0, k, x, ns);
      }
    }

    /**
     * find: level is decremented once; every node that passes is taken,
     * then, while the level is not 0, what Node.find returns below it.
     */
    method Find(s: Doc, test: Elem -> bool, levels: int) returns (r: seq<NodeId>)
      requires Valid(s) && forall n :: n in nodes ==> n in s
      ensures r == FindList(s, nodes, test, HasList, levels)
      ensures LegacyDoc(s) && levels <= 0 ==> r == Keep(s, Subtrees(s, nodes), test)
      ensures levels == 1 ==> r == Keep(s, nodes, test)
    {
      var ns := nodes;
      var d := levels - 1;
      r := [];
      var i := 0;
      while i < |ns|
        invariant 0 <= i <= |ns|
        invariant r + FindEach(s, ns[i..], test, HasList, d) == FindEach(s, ns, test, HasList, d)
      {
        var n := ns[i];
        var found := [];
        if test(s[n].kind) {
          found := [n];
        }
        if d != 0 && HasList(s[n].kind) {
          var below := NodeFind(s, n, test, d);
          found := found + below.value;
        }
        FindAtStep(s, n, test, d);
        FindEachSplit(s, ns, i, test, d, r, found);
        r := r + found;
        i := i + 1;
      }
      assert ns[i..] == [];
      FindListEnds(s, ns, test, levels);
    }

    /** select: find with Node.match against the tag, ids and classes the selector names. */
    method Select(s: Doc, sel: string, levels: int) returns (r: seq<NodeId>)
      requires Valid(s) && forall n :: n in nodes ==> n in s
      ensures r == FindList(s, nodes, SelectTest(sel), HasList, levels)
      ensures var w := ParseSelect(sel);
        forall m :: m in r ==> m in s && s[m].kind.TagE? && NodeMatch(s[m].kind, w.tag, w.ids, w.classes)
    {
      r := Find(s, SelectTest(sel), levels);
    }

    /**
     * each, with the callback's effect left out: the nodes it is applied
     * to, in order. Level is decremented here and again by Node.each's
     * `levels - 1`, so each level below the first costs two.
     */
    method Each(s: Doc, levels: int) returns (visited: seq<NodeId>)
      requires Valid(s) && forall n :: n in nodes ==> n in s
      ensures visited == EachAsWritten(s, nodes, levels)
      ensures LegacyDoc(s) && levels <= 0 ==> visited == Subtrees(s, nodes)
    {
      var d := levels - 1;
      visited := [];
      var i := 0;
      while i < |nodes|
        invariant 0 <= i <= |nodes|
        invariant visited + EachEach(s, nodes[i..], d) == EachEach(s, nodes, d)
      {
        var n := nodes[i];
        ChildrenIn(s, n);
        var here := [n];
        if d != 0 && HasList(s[n].kind) {
          here := here + EachAsWritten(s, s[n].children, d - 1);
        }
        EachAtStep(s, n, d);
        EachEachSplit(s, nodes, i, d, visited, here);
        visited := visited + here;
        i := i + 1;
      }
      assert nodes[i..] == [];
      if LegacyDoc(s) && levels <= 0 {
        EachAsWrittenAll(s, nodes, levels);
      }
    }

    // ---------------------------------------------------------- iterator

    method Rewind()
      modifies this
      ensures position == 0 && nodes == old(nodes)
    {
      position := 0;
    }

    /** current: the node at the position; PHP yields null past the end. */
    method Current() returns (r: Option<NodeId>)
      ensures r == At(nodes, position)
      ensures r.Some? <==> 0 <= position < |nodes|
    {
      r := At(nodes, position);
    }

    function Key(): (r: int)
      reads this
      ensures r == position
    {
      position
    }

    method Next()
      modifies this
      ensures position == old(position) + 1 && nodes == old(nodes)
    {
      position := position + 1;
    }

    /** valid: a node sits at the position. */
    function IsValid(): (r: bool)
      reads this
      ensures r <==> 0 <= position < |nodes|
    {
      At(nodes, position).Some?
    }

    /**
     * From rewind, the iterator hands out the list in order: after k steps
     * it is valid exactly while k < |nodes|, and current is nodes[k].
     */
    method Walk() returns (seen: seq<NodeId>)
      modifies this
      ensures seen == old(nodes) && nodes == old(nodes) && position == |nodes|
    {
      Rewind();
      seen := [];
      while IsValid()
        invariant nodes == old(nodes) && 0 <= position <= |nodes|
        invariant seen == nodes[..position]
        decreases |nodes| - position
      {
        var c := Current();
        seen := seen + [c.value];
        assert nodes[..position + 1] == nodes[..position] + [nodes[position]];
        Next();
      }
      assert nodes[..|nodes|] == nodes;
    }
  }
}
